/** The circular byte buffer of ring_buffer.c, refined to a bounded FIFO.

    `start`, `end` and `used` are redundant: `end` is left at `size` by a write that
    fills the array, and `start == end` holds both when the ring is empty and when it
    is full. */
module RingBuffer {
  import opened Bytes

  /** Octet `i` of the queue stored in the circular array `d` from `start`. */
  function At(d: seq<byte>, start: nat, i: nat): byte
    requires start < |d| && i < |d|
  {
    if start + i < |d| then d[start + i] else d[start + i - |d|]
  }

  function Window(d: seq<byte>, start: nat, used: nat): (w: seq<byte>)
    requires start < |d| && used <= |d|
    ensures |w| == used
    ensures forall i :: 0 <= i < used ==> w[i] == At(d, start, i)
  {
    seq(used, i requires 0 <= i < used => At(d, start, i))
  }

  lemma WindowUnwrapped(d: seq<byte>, start: nat, used: nat)
    requires start < |d| && start + used <= |d|
    ensures Window(d, start, used) == d[start..start + used]
  {
  }

  lemma WindowWrapped(d: seq<byte>, start: nat, used: nat)
    requires start < |d| <= start + used && used <= |d|
    ensures Window(d, start, used) == d[start..] + d[..start + used - |d|]
  {
  }

  /** The position of octet `offset`, as `ring_buffer_data_index` computes it. */
  function DataIndex(start: nat, offset: nat, size: nat): (k: nat)
    requires start < size && offset <= size
    ensures k == if start + offset < size then start + offset else start + offset - size
  {
    ModuloOnce(start + offset, size);
    (start + offset) % size
  }

  lemma ModuloOnce(a: nat, size: nat)
    requires size > 0 && a < 2 * size
    ensures a % size == if a < size then a else a - size
  {
    var q, r := a / size, a % size;
    assert a == q * size + r;
    assert q >= 2 ==> q * size >= 2 * size;
    assert q <= 0 ==> q * size <= 0;
  }

  lemma WindowDrop(d: seq<byte>, start: nat, used: nat, n: nat)
    requires start < |d| && n <= used <= |d|
    ensures Window(d, DataIndex(start, n, |d|), used - n) == Window(d, start, used)[n..]
  {
  }

  lemma WindowAppend(d: seq<byte>, start: nat, used: nat, at: nat, src: seq<byte>)
    requires start < |d| && used + |src| <= |d| && at + |src| <= |d|
    requires at == start + used || at + |d| == start + used
    ensures Window(Splice(d, at, src), start, used + |src|) == Window(d, start, used) + src
  {
    var r := Splice(d, at, src);
    var w := Window(r, start, used + |src|);
    forall i | 0 <= i < used + |src|
      ensures w[i] == (Window(d, start, used) + src)[i]
    {
      if i < used {
        assert At(r, start, i) == At(d, start, i);
      } else {
        assert At(r, start, i) == src[i - used];
      }
    }
  }

  lemma WindowAppendSplit(d: seq<byte>, start: nat, end: nat, used: nat, src: seq<byte>, k: nat)
    requires start <= end <= |d| && start < |d| && used + |src| <= |d| && k == |d| - end <= |src|
    requires start + used == end || (used == 0 && start == 0 && end == |d|)
    ensures Window(Splice(Splice(d, end, src[..k]), 0, src[k..]), start, used + |src|) ==
            Window(d, start, used) + src
  {
    var d1 := Splice(d, end, src[..k]);
    assert src == src[..k] + src[k..];
    if used == 0 && end == |d| {
      assert d1 == d;
      WindowAppend(d, start, 0, 0, src);
    } else {
      WindowAppend(d, start, used, end, src[..k]);
      WindowAppend(d1, start, used + k, 0, src[k..]);
    }
  }

  /** Index of the terminating NUL of a C string. */
  function StrLen(s: seq<byte>): (n: nat)
    requires 0 in s
    ensures n < |s| && s[n] == 0
    ensures forall i :: 0 <= i < n ==> s[i] != 0
  {
    if s[0] == 0 then 0 else 1 + StrLen(s[1..])
  }

  /** `Overrun` is not a result of the program: it stands for the calls on which the program
      writes past the end of a buffer it allocated, where the model stops. */
  datatype Reading = Nothing | Octets(octets: seq<byte>) | Overrun

  class Ring {
    var data: array<byte>
    var size: nat
    var start: nat
    var end: nat
    var used: nat

    ghost predicate Valid()
      reads this
    {
      && 0 < size == data.Length
      && start < size && end <= size && used <= size
      && (start + used == end || start + used == end + size || (used == 0 && start == 0 && end == size))
    }

    ghost function Contents(): (s: seq<byte>)
      requires Valid()
      reads this, data
      ensures |s| == used
    {
      Window(data[..], start, used)
    }

    constructor (n: nat)
      requires n > 0
      ensures Valid() && fresh(data) && size == n && Contents() == []
    {
      data := new byte[n](_ => 0);
      size, start, end, used := n, 0, 0, 0;
    }

    method Reset(n: nat)
      requires n > 0
      modifies this
      ensures Valid() && fresh(data) && size == n && Contents() == []
    {
      size, start, end, used := n, 0, 0, 0;
      data := new byte[n](_ => 0);
    }

    /** Append all of `src`, or nothing when it does not fit. */
    method Write(src: seq<byte>) returns (written: nat)
      requires Valid()
      modifies this`end, this`used, data
      ensures Valid()
      ensures written == if old(used) + |src| <= size then |src| else 0
      ensures Contents() == old(Contents()) + (if old(used) + |src| <= size then src else [])
    {
      if |src| == 0 {
        assert Contents() == old(Contents()) + src;
        return 0;
      }
      if used + |src| > size {
        return 0;
      }
      written := |src|;
      if start <= end {
        if end + |src| <= size {
          WriteWhole(src);
        } else {
          WriteSplit(src);
        }
      } else {
        WriteWhole(src);
      }
    }

    /** The space at `end` takes all of `src`. */
    method WriteWhole(src: seq<byte>)
      requires Valid() && src != [] && used + |src| <= size && end + |src| <= size
      modifies this`end, this`used, data
      ensures Valid() && Contents() == old(Contents()) + src
    {
      ghost var d := data[..];
      CopyInto(data, end, src);
      WindowAppend(d, start, used, end, src);
      used := used + |src|;
      end := end + |src|;
    }

    /** The space at `end` takes the first part only, and the rest goes to the front. */
    method WriteSplit(src: seq<byte>)
      requires Valid() && used + |src| <= size && start <= end && end + |src| > size
      modifies this`end, this`used, data
      ensures Valid() && Contents() == old(Contents()) + src
    {
      ghost var d := data[..];
      var firstPart := size - end;
      var secondPart := |src| - firstPart;
      CopyInto(data, end, src[..firstPart]);
      CopyInto(data, 0, src[firstPart..]);
      WindowAppendSplit(d, start, end, used, src, firstPart);
      end := secondPart;
      used := used + |src|;
    }

    /** The next `len` octets, or nothing when fewer are held. When the data is stored in two
        pieces the copy takes the whole first piece, so asking for less overruns. */
    method Read(len: nat, advance: bool) returns (r: Reading)
      requires Valid()
      modifies this`start, this`used
      ensures Valid()
      ensures r == if len == 0 || len > old(used) then Nothing
                   else if old(end <= start && len < size - start) then Overrun
                   else Octets(old(Contents())[..len])
      ensures Contents() == if r.Octets? && advance then old(Contents())[len..] else old(Contents())
    {
      if len == 0 || used == 0 || len > used {
        return Nothing;
      }
      if start < end {
        var octets := ReadWhole(len, advance);
        r := Octets(octets);
      } else if len < size - start {
        r := Overrun;
      } else {
        var octets := ReadSplit(len, advance);
        r := Octets(octets);
      }
    }

    /** The data is in one piece. */
    method ReadWhole(len: nat, advance: bool) returns (octets: seq<byte>)
      requires Valid() && 0 < len <= used && start < end
      modifies this`start, this`used
      ensures Valid() && octets == old(Contents())[..len]
      ensures Contents() == if advance then old(Contents())[len..] else old(Contents())
    {
      ghost var all := Contents();
      WindowDrop(data[..], start, used, len);
      WindowUnwrapped(data[..], start, used);
      octets := data[start..start + len];
      assert octets == all[..len];
      if advance {
        start := start + len;
        used := used - len;
        if start >= size {
          start := 0;
        }
        assert start == DataIndex(old(start), len, size);
      }
    }

    /** The data is in two pieces, and the first is read whole. */
    method ReadSplit(len: nat, advance: bool) returns (octets: seq<byte>)
      requires Valid() && 0 < len <= used && end <= start && len >= size - start
      modifies this`start, this`used
      ensures Valid() && octets == old(Contents())[..len]
      ensures Contents() == if advance then old(Contents())[len..] else old(Contents())
    {
      ghost var all := Contents();
      WindowDrop(data[..], start, used, len);
      WindowWrapped(data[..], start, used);
      var firstPart := size - start;
      var secondPart := len - firstPart;
      octets := data[start..] + data[..secondPart];
      assert octets == all[..len];
      if advance {
        used := used - len;
        start := secondPart;
        assert start == DataIndex(old(start), len, size);
      }
    }

    method ReadByte(advance: bool) returns (ok: bool, b: byte)
      requires Valid()
      modifies this`start, this`used
      ensures Valid()
      ensures ok == (old(used) > 0)
      ensures b == if ok then old(Contents())[0] else 0
      ensures Contents() == if ok && advance then old(Contents())[1..] else old(Contents())
    {
      if used == 0 {
        return false, 0;
      }
      b := data[start];
      ghost var all := Contents();
      if advance {
        start := start + 1;
        used := used - 1;
        if start >= size {
          start := 0;
        }
        assert Contents() == all[1..];
      }
      ok := true;
    }

    /** Move the contents into a new array. A new size that does not hold them overruns; one of
        zero leaves a ring that holds nothing and has no place to read from, and is refused
        here. */
    method Resize(newSize: nat) returns (ok: bool)
      requires Valid()
      modifies this
      ensures Valid() && Contents() == old(Contents())
      ensures ok == (old(used) <= newSize && newSize > 0)
      ensures size == if ok then newSize else old(size)
      ensures if ok then fresh(data) else data == old(data)
    {
      ok := used <= newSize && newSize > 0;
      if !ok {
        return;
      }
      var oldData := Read(used, false);
      if oldData.Octets? {
        var newData := new byte[newSize](_ => 0);
        CopyInto(newData, 0, oldData.octets);
        data := newData;
        start, end, size := 0, used, newSize;
        WindowUnwrapped(data[..], 0, used);
      } else {
        Reset(newSize);
      }
    }

    /** Both callers of `Read` ask for everything held, which never overruns. */
    method Drain() returns (r: Reading, len: nat)
      requires Valid()
      modifies this`start, this`used
      ensures Valid() && Contents() == [] && len == old(used)
      ensures r == if old(Contents()) == [] then Nothing else Octets(old(Contents()))
    {
      len := used;
      ghost var all := Contents();
      r := Read(len, true);
      assert all[..len] == all;
    }

    /** 0 exactly when the first octets of the ring are the compared ones; otherwise -1
        if the ring ends first, or the difference at the first octet that differs. */
    method Compare(compare: seq<byte>, compareLen: nat) returns (r: int)
      requires Valid()
      requires compareLen <= |compare|
      requires compareLen == 0 ==> 0 in compare
      ensures var n := if compareLen > 0 then compareLen else StrLen(compare) + 1;
              && (r == 0 <==> compare[..n] <= Contents())
              && (r != 0 ==> exists i :: 0 <= i < n && i <= used && compare[..i] == Contents()[..i] &&
                                         (if i == used then r == -1 else r == (Contents()[i] as int) - compare[i] as int))
    {
      var n := if compareLen > 0 then compareLen else StrLen(compare) + 1;
      ghost var all := Contents();
      r := 0;
      var i := 0;
      while i < n
        invariant 0 <= i <= n && i <= used && r == 0
        invariant compare[..i] == all[..i]
      {
        if i >= used {
          assert i == used && compare[..i] == all[..i];
          return -1;
        }
        var ringByte := data[DataIndex(start, i, size)];
        assert ringByte == all[i];
        if ringByte != compare[i] {
          r := (ringByte as int) - compare[i] as int;
          assert compare[..n][i] != all[i];
          return;
        }
        i := i + 1;
      }
      assert compare[..n] == all[..n];
    }

    method CharCompare(compare: byte, index: nat) returns (r: bool)
      requires Valid()
      ensures r <==> index < used && Contents()[index] == compare
    {
      if index >= used {
        return false;
      }
      r := data[DataIndex(start, index, size)] == compare;
    }

    /** Drop the first `min(steps, used)` octets. */
    method Advance(steps: nat)
      requires Valid()
      modifies this`start, this`used, this`end
      ensures Valid()
      ensures Contents() == old(Contents())[if steps < old(used) then steps else old(used)..]
    {
      if steps == 0 {
        return;
      }
      ghost var all := Contents();
      var realSteps := if steps < used then steps else used;
      WindowDrop(data[..], start, used, realSteps);
      start := DataIndex(start, realSteps, size);
      used := used - realSteps;
      if used == 0 {
        end := start;
      }
      assert Contents() == all[realSteps..];
    }
  }
}
