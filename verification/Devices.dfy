/** The device file operations as the driver runs them, on the registry objects; Delivery has
    the same operations on values, and what they amount to together. */
module Devices {
  import opened Words
  import opened Options
  import opened RegistrySpec
  import opened Mailbox
  import opened Channels
  import opened Dispatch
  import opened SharedMemory
  import opened Delivery

  // The message registers. Two of the four are the cores'.
  class Messages {
    var registers: seq<int>

    constructor ()
      ensures |registers| == 4
    {
      registers := [0, 0, 0, 0];
    }

    // message_write.
    method Write(slot: nat, message: int) returns (ret: int)
      requires |registers| == 4
      modifies `registers
      ensures ret == (if slot >= 4 then -1 else 0)
      ensures registers == (if slot >= 4 then old(registers) else old(registers)[slot := message])
    {
      if slot >= 4 {
        return -1;
      }
      registers := registers[slot := message];
      return 0;
    }
  }

  // struct Shm_data, with the two static buffers of its device.
  class Device {
    const core: Core
    const channel: MpiChannel
    const buffer: array<byte>
    const writeBuffer: array<byte>
    const registry: Registry
    const messages: Messages
    var available: word
    var active: bool

    constructor (core: Core, channel: MpiChannel, buffer: array<byte>, writeBuffer: array<byte>,
                 registry: Registry, messages: Messages)
      ensures this.core == core && this.channel == channel && this.buffer == buffer && this.writeBuffer == writeBuffer
      ensures this.registry == registry && this.messages == messages && available == 0 && !active
    {
      this.core, this.channel, this.buffer, this.writeBuffer := core, channel, buffer, writeBuffer;
      this.registry, this.messages, available, active := registry, messages, 0, false;
    }

    // No object is shared with the registry, and the buffers hold what the channel carries.
    ghost predicate Apart()
      reads channel`sendLength, channel`recvLength
    {
      && {this, channel, buffer, writeBuffer, messages} !! registry.Mine
      && {this, channel, buffer, writeBuffer, messages} !! registry.allocator.Repr
      && registry.allocator.locks !in {this as object, channel, buffer, writeBuffer, messages}
      && buffer != writeBuffer
      && channel.recvLength <= buffer.Length < TWO32 && channel.sendLength <= writeBuffer.Length
    }

    // s is the machine as this device, number i of its core, shows it.
    ghost predicate Shows(s: Machine, i: nat)
      reads this, registry`reg, messages, buffer
      reads channel`number, channel`send, channel`recv, channel`sendLength, channel`recvLength, channel`slot
    {
      && Shaped(s) && s.reg == registry.reg && i < |s.devs[core]|
      && s.devs[core][i] == Dev(channel.Value(), buffer[..], available)
      && |messages.registers| == 4 && s.msgr == messages.registers[..2]
      && channel.send >= 0 && channel.recv >= 0
    }

    // mpi_shm_callback_func.
    method Callback(ghost s: Machine, ghost i: nat) returns (ret: int)
      requires registry.Valid() && registry.Unlocked() && Apart() && Shows(s, i)
      requires SoundAt(registry.reg, channel.recv)
      modifies registry.Mine, registry.allocator.locks, buffer, `available, `active
      ensures registry.Valid() && registry.allocator.locks.words == old(registry.allocator.locks.words)
      ensures Good(s.reg) && Shows(Delivery.Callback(s, core, i), i) && active
    {
      hide Registry.Valid;
      var out;
      ret, out := registry.Get(channel.recv, channel.recvLength, core);
      registry.AllMine();
      GotLength(old(registry.reg), channel.recv, channel.recvLength);
      CopyIn(buffer, 0, out);
      available := Wrap(ret);
      active := true;
    }

    lemma GotLength(reg: Reg, recv: int, n: nat)
      requires Good(reg) && SoundAt(reg, recv)
      ensures |Get(reg, recv, n, core).2| <= n
    {
    }

    // dev_read, for a reader with room for n bytes.
    method Read(n: nat, ghost s: Machine, ghost i: nat) returns (out: seq<byte>)
      requires Shows(s, i) && available <= buffer.Length
      modifies `available, `active
      ensures out == DevRead(s, core, i, n).1 && Shows(DevRead(s, core, i, n).0, i) && !active
    {
      active := false;
      out := [];
      if available != 0 {
        var length := if available > n then n else available;
        out := buffer[..length];
        available := 0;
      }
    }

    // mpi_channel_send on the device's channel.
    method ChannelSend(bytes: seq<byte>, ghost s: Machine, ghost i: nat) returns (ret: int)
      requires registry.Valid() && registry.Unlocked() && Apart() && Shows(s, i) && |bytes| < TWO32
      modifies registry.Mine, registry.allocator.locks, messages
      ensures registry.Valid() && registry.allocator.locks.words == old(registry.allocator.locks.words)
      ensures Good(s.reg) && Shows(Delivery.ChannelSend(s, core, channel.Value(), bytes).0, i)
      ensures ret == Delivery.ChannelSend(s, core, channel.Value(), bytes).1
    {
      hide Registry.Valid;
      registry.AllMine();
      registry.InfoKnown();
      if channel.sendLength < |bytes| {
        return -1;
      }
      ret := registry.Send(channel.send, bytes, core);
      registry.AllMine();
      var _ := messages.Write(channel.slot, channel.send);
    }

    // dev_write, with copies that succeed.
    method Write(bytes: seq<byte>, ghost s: Machine, ghost i: nat) returns (count: int)
      requires registry.Valid() && registry.Unlocked() && Apart() && Shows(s, i) && |bytes| < TWO32
      modifies registry.Mine, registry.allocator.locks, messages, writeBuffer
      ensures registry.Valid() && registry.allocator.locks.words == old(registry.allocator.locks.words)
      ensures Good(s.reg) && Shows(DevWrite(s, core, i, bytes).0, i)
      ensures count == DevWrite(s, core, i, bytes).1
    {
      hide Registry.Valid;
      registry.AllMine();
      registry.InfoKnown();
      count := 0;
      if bytes != [] {
        var n := if channel.sendLength > |bytes| then |bytes| else channel.sendLength;
        CopyIn(writeBuffer, 0, bytes[..n]);
        assert writeBuffer[..n] == bytes[..n];
        var _ := ChannelSend(writeBuffer[..n], s, i);
        count := n + 1;
      }
    }
  }
}
