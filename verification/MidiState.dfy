/** The mutable parser of midi_state.c, over a ring buffer and a hold buffer, refined to the
    pure fold of `MidiParser`. */
module MidiState {
  import opened Bytes
  import opened MidiCommand
  import opened MidiParser
  import opened Folds
  import RingBuffer
  import DBuffer

  class State {
    var status: Status
    var running: byte
    const ring: RingBuffer.Ring
    const hold: DBuffer.Buffer
    var delta: u64
    var partial: bool

    ghost predicate Valid()
      reads this, ring, hold
    {
      && ring.Valid() && hold.Valid()
      && hold.data != ring.data
      && status != CommandReceived
    }

    ghost function View(): Parser
      requires Valid()
      reads this, ring, hold, hold.data
    {
      Parser(status, running, partial, delta, hold.Contents())
    }

    constructor (bufferSize: nat)
      requires bufferSize > 0
      ensures Valid() && fresh(ring) && fresh(ring.data) && fresh(hold)
      ensures View().(delta := 0) == Parser(Init, 0, false, 0, []) && fresh(hold.data)
      ensures ring.Contents() == [] && ring.size == bufferSize
    {
      status, running, partial := Init, 0, false;
      hold := new DBuffer.Buffer(DBuffer.DEFAULT_BLOCK_SIZE);
      ring := new RingBuffer.Ring(bufferSize);
      delta := *;
    }

    /** `midi_state_reset`: a segmented SysEx stays marked as open. */
    method Reset()
      requires Valid()
      modifies this, ring, hold
      ensures Valid() && fresh(ring.data)
      ensures View() == Parser(Init, 0, old(partial), old(delta), [])
      ensures ring.Contents() == [] && ring.size == old(ring.size)
    {
      status := Init;
      running := 0;
      hold.Reset();
      ring.Reset(ring.size);
    }

    method Write(buffer: seq<byte>) returns (r: bool)
      requires Valid()
      modifies ring, ring.data
      ensures Valid() && View() == old(View()) && ring.size == old(ring.size) && ring.data == old(ring.data)
      ensures r == (buffer != [])
      ensures ring.Contents() == old(ring.Contents()) + (if old(ring.used) + |buffer| <= ring.size then buffer else [])
    {
      if |buffer| == 0 {
        return false;
      }
      var _ := ring.Write(buffer);
      return true;
    }

    /** Append to the hold buffer. */
    method Hold(s: seq<byte>)
      requires Valid()
      modifies hold, hold.data
      ensures Valid() && View() == old(View()).(hold := old(View()).hold + s)
      ensures hold.data == old(hold.data) || fresh(hold.data)
    {
      var _ := hold.Write(s);
    }

    /** The tail of the loop: hand over the held octets once a command is complete. */
    method Finish(mode: Mode, getDelta: bool) returns (getDelta': bool, out: seq<Command>)
      requires Valid() && View().hold != []
      modifies this`status, hold
      ensures Valid() && fresh(hold.data)
      ensures Outcome(Config(View(), getDelta'), out) == Emit(mode, old(View()), getDelta)
    {
      var buffer := hold.Read();
      hold.Reset();
      out := [Command(delta, buffer[0], buffer[1..])];
      status := Init;
      getDelta' := getDelta || mode == Rtp;
    }

    /** A data octet where a command is expected: running status. */
    method AcceptDataAtCommand(mode: Mode, getDelta: bool, b: byte) returns (getDelta': bool, out: seq<Command>)
      requires Valid() && status == WaitCommand
      modifies this`status, hold, hold.data
      ensures Valid() && (hold.data == old(hold.data) || fresh(hold.data))
      ensures Outcome(Config(View(), getDelta'), out) == StepDataAtCommand(mode, old(View()), getDelta, b)
    {
      getDelta', out := getDelta, [];
      if running == 0 {
        return;
      }
      var needed := LookUp(running);
      Hold([running]);
      Hold([b]);
      assert View() == old(View()).(hold := old(View()).hold + [running, b]);
      if needed == 1 {
        getDelta', out := Finish(mode, getDelta);
      } else if needed == 2 {
        status := WaitByte1;
      }
    }

    /** A held status octet that needs so many data octets. */
    method AwaitData(mode: Mode, getDelta: bool, needed: nat) returns (getDelta': bool, out: seq<Command>)
      requires Valid() && View().hold != []
      modifies this`status, hold
      ensures Valid() && (hold.data == old(hold.data) || fresh(hold.data))
      ensures Outcome(Config(View(), getDelta'), out) ==
              if needed == 1 then Silent(old(View()).(status := WaitByte1), getDelta)
              else if needed == 2 then Silent(old(View()).(status := WaitByte2), getDelta)
              else Emit(mode, old(View()), getDelta)
    {
      getDelta', out := getDelta, [];
      if needed == 1 {
        status := WaitByte1;
      } else if needed == 2 {
        status := WaitByte2;
      } else {
        getDelta', out := Finish(mode, getDelta);
      }
    }

    /** A status octet where a command is expected. */
    method AcceptStatus(mode: Mode, getDelta: bool, b: byte) returns (getDelta': bool, out: seq<Command>)
      requires Valid() && status == WaitCommand && 0x80 <= b < TIMING_CLOCK
      modifies this`status, this`running, hold, hold.data
      ensures Valid() && (hold.data == old(hold.data) || fresh(hold.data))
      ensures Outcome(Config(View(), getDelta'), out) == StepStatus(mode, old(View()), getDelta, b)
    {
      Hold([b]);
      if b == 0xF0 || (partial && b == 0xF7) {
        status := WaitEndSysex;
        running := 0;
        return getDelta, [];
      }
      var needed := LookUp(MaskStatus(b));
      running := b;
      getDelta', out := AwaitData(mode, getDelta, needed);
    }

    /** An octet of a System Exclusive command. */
    method AcceptSysex(mode: Mode, getDelta: bool, b: byte) returns (getDelta': bool, out: seq<Command>)
      requires Valid() && status == WaitEndSysex
      modifies this`status, this`running, this`partial, hold, hold.data
      ensures Valid() && (hold.data == old(hold.data) || fresh(hold.data))
      ensures Outcome(Config(View(), getDelta'), out) == StepSysex(mode, old(View()), getDelta, b)
    {
      getDelta', out := getDelta, [];
      Hold([b]);
      running := 0;
      var ends := b == 0xF7 || (partial && b == 0xF4);
      if ends || b == 0xF0 {
        partial := !ends;
        getDelta', out := Finish(mode, getDelta);
      }
    }

    /** The loop body once `Init` has been left. */
    method AcceptStarted(mode: Mode, getDelta: bool, b: byte) returns (getDelta': bool, out: seq<Command>)
      requires Valid() && status != Init
      modifies this`status, this`running, this`delta, this`partial, hold, hold.data
      ensures Valid() && (hold.data == old(hold.data) || fresh(hold.data))
      ensures Outcome(Config(View(), getDelta'), out) == Dispatch(mode, old(View()), getDelta, b)
    {
      getDelta', out := getDelta, [];
      if status == WaitDelta {
        delta := PushDelta(delta, b);
        if b < 0x80 {
          status := WaitCommand;
        }
      } else if b >= TIMING_CLOCK {
        out := [Command(delta, b, [])];
      } else if status == WaitEndSysex {
        getDelta', out := AcceptSysex(mode, getDelta, b);
      } else if status == WaitByte2 {
        Hold([b]);
        status := WaitByte1;
      } else if status == WaitByte1 {
        Hold([b]);
        getDelta', out := Finish(mode, getDelta);
      } else if b < 0x80 {
        getDelta', out := AcceptDataAtCommand(mode, getDelta, b);
      } else {
        getDelta', out := AcceptStatus(mode, getDelta, b);
      }
    }

    /** The body of the `midi_state_send` loop for the octet just read. */
    method Accept(mode: Mode, getDelta: bool, b: byte) returns (getDelta': bool, out: seq<Command>)
      requires Valid()
      modifies this`status, this`running, this`delta, this`partial, hold, hold.data
      ensures Valid() && (hold.data == old(hold.data) || fresh(hold.data))
      ensures Outcome(Config(View(), getDelta'), out) == Step(mode, Config(old(View()), getDelta), b)
    {
      if status == Init {
        status := if getDelta then WaitDelta else WaitCommand;
        delta := 0;
      }
      assert View() == Begin(Config(old(View()), getDelta));
      getDelta', out := AcceptStarted(mode, getDelta, b);
    }

    /** Read one octet, if there is one, and act on it. */
    method Pump(mode: Mode, getDelta: bool) returns (ok: bool, getDelta': bool, out: seq<Command>)
      requires Valid()
      modifies this`status, this`running, this`delta, this`partial, ring`start, ring`used, hold, hold.data
      ensures Valid() && (hold.data == old(hold.data) || fresh(hold.data))
      ensures ok == (old(ring.Contents()) != [])
      ensures !ok ==> View() == old(View()) && ring.Contents() == []
      ensures ok ==> ring.Contents() == old(ring.Contents())[1..]
      ensures ok ==> Outcome(Config(View(), getDelta'), out) ==
                     Step(mode, Config(old(View()), getDelta), old(ring.Contents())[0])
    {
      var b;
      ok, b := ring.ReadByte(true);
      getDelta', out := getDelta, [];
      if ok {
        getDelta', out := Accept(mode, getDelta, b);
      }
    }

    /** `midi_state_send`: parse everything in the ring. The commands queued for the sender
        are returned in order. */
    method Send(mode: Mode, z: bool) returns (out: seq<Command>)
      requires Valid()
      modifies this`status, this`running, this`delta, this`partial, ring`start, ring`used, hold, hold.data
      ensures Valid() && (hold.data == old(hold.data) || fresh(hold.data))
      ensures ring.Contents() == []
      ensures (View(), out) == MidiParser.Send(mode, old(View()), z, old(ring.Contents()))
    {
      var getDelta := z;
      out := [];
      ghost var start := Config(View(), z);
      ghost var input := ring.Contents();
      ghost var done := 0;
      assert input[..0] == [] && input[0..] == input;
      while true
        invariant Valid() && (hold.data == old(hold.data) || fresh(hold.data))
        invariant 0 <= done <= |input| && ring.Contents() == input[done..]
        invariant Run(mode, start, input[..done]) == Outcome(Config(View(), getDelta), out)
        decreases ring.used
      {
        var ok, queued;
        ok, getDelta, queued := Pump(mode, getDelta);
        if !ok {
          assert input[..done] == input;
          if mode == Rtp {
            status := Init;
          }
          return;
        }
        RunSnoc(mode, start, input[..done], input[done]);
        assert input[..done + 1] == input[..done] + [input[done]];
        out := out + queued;
        done := done + 1;
      }
    }

    /** One read of the local socket, written to the ring and parsed. */
    method Take(chunk: seq<byte>) returns (out: seq<Command>)
      requires Valid() && ring.Contents() == [] && |chunk| <= ring.size
      modifies this`status, this`running, this`delta, this`partial, ring, ring.data, hold, hold.data
      ensures Valid() && ring.Contents() == [] && ring.size == old(ring.size) && ring.data == old(ring.data)
      ensures hold.data == old(hold.data) || fresh(hold.data)
      ensures (View(), out) == MidiParser.Send(Simple, old(View()), false, chunk)
    {
      var _ := Write(chunk);
      assert ring.Contents() == chunk;
      out := Send(Simple, false);
    }

    /** The reader loop on the local socket: every read of at most the ring's size is written
        to the ring and parsed. The commands do not depend on how the stream was cut. */
    method Feed(chunks: seq<seq<byte>>) returns (out: seq<Command>)
      requires Valid() && ring.Contents() == []
      requires forall i :: 0 <= i < |chunks| ==> |chunks[i]| <= ring.size
      modifies this, ring, ring.data, hold, hold.data
      ensures Valid() && ring.Contents() == []
      ensures (View(), out) == MidiParser.Send(Simple, old(View()), false, Flatten(chunks))
    {
      out := [];
      ghost var p := View();
      ghost var fed: seq<byte> := [];
      for i := 0 to |chunks|
        invariant Valid() && ring.Contents() == [] && ring.size == old(ring.size) && ring.data == old(ring.data)
        invariant hold.data == old(hold.data) || fresh(hold.data)
        invariant fed + Flatten(chunks[i..]) == Flatten(chunks)
        invariant (View(), out) == MidiParser.Send(Simple, p, false, fed)
      {
        var more := Take(chunks[i]);
        SendConcat(p, fed, chunks[i]);
        out := out + more;
        fed := fed + chunks[i];
        assert chunks[i..][1..] == chunks[i + 1..];
      }
      assert fed == Flatten(chunks);
    }
  }
}
