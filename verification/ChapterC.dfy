/** Chapter C, the control change log of a channel (Appendix A.3 of RFC 6295, chapter_c.c). */
module ChapterC {
  import opened Bytes

  const CONTROLLERS := 128
  const HEADER_SIZE := 1
  const LOG_SIZE := 2

  datatype Log = Log(s: bit, number: byte, a: bit, t: bit, value: byte)

  /** A log is active when its number is its index; 255 marks the others. */
  datatype Chapter = Chapter(s: bit, logs: seq<Log>)

  predicate IsActive(logs: seq<Log>, k: nat)
    requires k < |logs|
  {
    logs[k].number == k
  }

  /** What the journal keeps: no alternative coding, and seven-bit values. */
  predicate Valid(c: Chapter) {
    && |c.logs| == CONTROLLERS
    && forall k :: 0 <= k < CONTROLLERS ==> c.logs[k].a == 0 && c.logs[k].value < 128
  }

  /** The active controllers and their values. */
  function Values(c: Chapter): map<byte, byte>
    requires |c.logs| == CONTROLLERS
  {
    map k: byte | 0 <= k < CONTROLLERS && IsActive(c.logs, k) :: c.logs[k].value
  }

  function Create(): (c: Chapter)
    ensures Valid(c) && Values(c) == map[]
  {
    Chapter(1, seq(CONTROLLERS, i => Log(0, 255, 0, 0, 0)))
  }

  function Reset(c: Chapter): (r: Chapter)
    ensures Valid(r) && Values(r) == map[]
  {
    Chapter(1, seq(CONTROLLERS, i => Log(1, 255, 0, 0, 0)))
  }

  /** Record the latest value of a controller. */
  function Record(c: Chapter, number: byte, value: byte): (r: Chapter)
    requires Valid(c) && number < CONTROLLERS && value < 128
    ensures Valid(r) && Values(r) == Values(c)[number := value]
  {
    c.(logs := c.logs[number := c.logs[number].(s := 1, number := number, value := value)])
  }

  /** Number of active controllers from index `k` on. */
  function ActiveFrom(logs: seq<Log>, k: nat): (n: nat)
    requires k <= |logs|
    ensures n <= |logs| - k
    decreases logs, |logs| - k
  {
    if k == |logs| then 0 else (if IsActive(logs, k) then 1 else 0) + ActiveFrom(logs, k + 1)
  }

  function PackedLog(log: Log): seq<byte> {
    [log.s * 128 + log.number % 128,
     log.a * 128 + if log.a == 1 then log.t * 64 + log.value % 64 else log.value % 128]
  }

  function PackedLogs(logs: seq<Log>, k: nat): (s: seq<byte>)
    requires k <= |logs|
    ensures |s| == LOG_SIZE * ActiveFrom(logs, k)
    decreases logs, |logs| - k
  {
    if k == |logs| then []
    else (if IsActive(logs, k) then PackedLog(logs[k]) else []) + PackedLogs(logs, k + 1)
  }

  /** The packed chapter. The bytes left to write are counted in eight bits, so when all 128
      controllers are active the count of 257 is taken for 1 and no log is written over the
      zeroed buffer. */
  function Packed(c: Chapter): (s: seq<byte>)
    requires |c.logs| == CONTROLLERS
    ensures ActiveFrom(c.logs, 0) == 0 ==> s == []
    ensures ActiveFrom(c.logs, 0) > 0 ==> |s| == HEADER_SIZE + LOG_SIZE * ActiveFrom(c.logs, 0)
  {
    var n := ActiveFrom(c.logs, 0);
    if n == 0 then []
    else [c.s * 128 + (n - 1)] + if n < CONTROLLERS then PackedLogs(c.logs, 0) else seq(LOG_SIZE * n, i => 0)
  }

  /** The counting pass. */
  method Count(c: Chapter) returns (len: nat)
    requires |c.logs| == CONTROLLERS
    ensures len == ActiveFrom(c.logs, 0)
  {
    len := 0;
    var index := 0;
    while index < CONTROLLERS
      invariant 0 <= index <= CONTROLLERS && len + ActiveFrom(c.logs, index) == ActiveFrom(c.logs, 0)
    {
      if c.logs[index].number == index {
        len := len + 1;
      }
      index := index + 1;
    }
  }

  /** Two octets: the number, then the value. */
  method WriteLog(buffer: array<byte>, p: nat, log: Log) returns (q: nat)
    requires p + LOG_SIZE <= buffer.Length
    modifies buffer
    ensures q == p + LOG_SIZE && buffer[..q] == old(buffer[..p]) + PackedLog(log)
  {
    ghost var before := buffer[..p];
    var number: byte := log.s * 128 + log.number % 128;
    var value: byte := log.a * 128;
    if log.a == 1 {
      value := value + log.t * 64;
      value := value + log.value % 64;
    } else {
      value := value + log.value % 128;
    }
    assert PackedLog(log) == [number] + [value];
    q := Put(buffer, p, [number]);
    q := Put(buffer, q, [value]);
    assert before + [number] + [value] == before + ([number] + [value]);
  }

  lemma PackedLogsStep(pre: seq<byte>, logs: seq<Log>, k: nat)
    requires k < |logs|
    ensures pre + PackedLogs(logs, k) == (if IsActive(logs, k) then pre + PackedLog(logs[k]) else pre) + PackedLogs(logs, k + 1)
  {
    if IsActive(logs, k) {
      Associative(pre, PackedLog(logs[k]), PackedLogs(logs, k + 1));
    } else {
      assert [] + PackedLogs(logs, k + 1) == PackedLogs(logs, k + 1);
    }
  }

  /** The writing pass, driven by the number of bytes left. Starting from the bytes of the
      logs it ends with none left; starting from none it writes nothing. */
  method WriteLogs(c: Chapter, buffer: array<byte>, start: nat, left: byte)
    requires |c.logs| == CONTROLLERS && start + LOG_SIZE * ActiveFrom(c.logs, 0) == buffer.Length
    requires left == 0 || left == LOG_SIZE * ActiveFrom(c.logs, 0)
    modifies buffer
    ensures buffer[..] == if left == 0 then old(buffer[..]) else old(buffer[..start]) + PackedLogs(c.logs, 0)
  {
    var p: nat := start;
    var currentSize: byte := left;
    var index: nat := 0;
    ghost var all := buffer[..start] + PackedLogs(c.logs, 0);
    while currentSize >= LOG_SIZE && index < CONTROLLERS
      invariant 0 <= index <= CONTROLLERS && p + currentSize <= buffer.Length
      invariant left == 0 ==> currentSize == 0 && buffer[..] == old(buffer[..])
      invariant left > 0 ==> currentSize == LOG_SIZE * ActiveFrom(c.logs, index) && p + currentSize == buffer.Length
      invariant left > 0 ==> buffer[..p] + PackedLogs(c.logs, index) == all
      decreases CONTROLLERS - index
    {
      PackedLogsStep(buffer[..p], c.logs, index);
      if c.logs[index].number == index {
        p := WriteLog(buffer, p, c.logs[index]);
        currentSize := currentSize - 2;
      }
      index := index + 1;
    }
    assert currentSize == 0;
    if left > 0 {
      assert PackedLogs(c.logs, index) == [] && buffer[..p] == buffer[..];
    }
  }

  /** `chapter_c_pack`. */
  method Pack(c: Chapter) returns (packed: seq<byte>)
    requires |c.logs| == CONTROLLERS
    ensures packed == Packed(c)
  {
    var len := Count(c);
    if len == 0 {
      return [];
    }
    var size := HEADER_SIZE + len * LOG_SIZE;
    Counter(len);
    var buffer := Header(c.s, len);
    var currentSize: byte := size % 256;
    currentSize := currentSize - 1;
    WriteLogs(c, buffer, 1, currentSize);
    packed := buffer[..];
    assert packed == [c.s * 128 + (len - 1)] + if len < CONTROLLERS then PackedLogs(c.logs, 0) else seq(LOG_SIZE * len, i => 0);
  }

  /** The eight-bit counter behind the header. */
  lemma Counter(len: nat)
    requires 0 < len <= CONTROLLERS
    ensures (HEADER_SIZE + len * LOG_SIZE) % 256 - 1 == if len < CONTROLLERS then LOG_SIZE * len else 0
  {
  }

  /** The zeroed buffer with the header octet. */
  method Header(s: bit, len: nat) returns (buffer: array<byte>)
    requires 0 < len <= CONTROLLERS
    ensures fresh(buffer) && buffer.Length == HEADER_SIZE + LOG_SIZE * len
    ensures buffer[..1] == [s * 128 + (len - 1)] && buffer[..] == [s * 128 + (len - 1)] + seq(LOG_SIZE * len, i => 0)
  {
    buffer := new byte[HEADER_SIZE + LOG_SIZE * len](_ => 0);
    buffer[0] := s * 128 + (len - 1);
  }

  // Reading the chapter, as Appendix A.3 of RFC 6295 defines it.

  datatype Entry = Entry(number: byte, value: byte)

  /** The log list; a log with the A bit set, which codes a tool and not a value, is refused. */
  function DecodeLogs(s: seq<byte>): Option<seq<Entry>> {
    if s == [] then Some([])
    else if |s| == 1 || s[1] >= 128 then None
    else
      var rest := DecodeLogs(s[LOG_SIZE..]);
      if rest.None? then None else Some([Entry(s[0] % 128, s[1])] + rest.value)
  }

  /** The LEN field is the number of logs less one. */
  function Decode(s: seq<byte>): Option<seq<Entry>> {
    if s == [] then Some([])
    else if |s| != HEADER_SIZE + LOG_SIZE * (s[0] % 128 + 1) then None
    else DecodeLogs(s[HEADER_SIZE..])
  }

  /** The active controllers in ascending order with their values. */
  function Entries(logs: seq<Log>, k: nat): (es: seq<Entry>)
    requires k <= |logs| == CONTROLLERS
    ensures |es| == ActiveFrom(logs, k)
    decreases logs, |logs| - k
  {
    if k == |logs| then []
    else (if IsActive(logs, k) then [Entry(k, logs[k].value)] else []) + Entries(logs, k + 1)
  }

  /** Each controller appears at most once, in ascending order. */
  lemma {:induction false} EntriesAscend(logs: seq<Log>, k: nat)
    requires k <= |logs| == CONTROLLERS
    ensures forall i :: 0 <= i < |Entries(logs, k)| ==> k <= Entries(logs, k)[i].number < CONTROLLERS
    ensures forall i, j :: 0 <= i < j < |Entries(logs, k)| ==> Entries(logs, k)[i].number < Entries(logs, k)[j].number
    decreases |logs| - k
  {
    if k < |logs| {
      EntriesAscend(logs, k + 1);
    }
  }

  /** What a receiver does with the entries: set each controller in turn. */
  function Apply(m: map<byte, byte>, es: seq<Entry>): map<byte, byte>
    decreases |es|
  {
    if es == [] then m else Apply(m[es[0].number := es[0].value], es[1..])
  }

  lemma PackedLogFields(log: Log, rest: seq<byte>)
    requires log.number < 128 && log.a == 0 && log.value < 128
    ensures var s := PackedLog(log) + rest;
            s[0] % 128 == log.number && s[1] == log.value && s[LOG_SIZE..] == rest
  {
    BitAndSeven(log.s, log.number);
  }

  lemma ToolOctet(t: bit, low: nat)
    requires low < 64
    ensures var o := 128 + t * 64 + low; o / 128 == 1 && o / 64 % 2 == t && o % 64 == low
  {
  }

  /** The two octets of a log as Appendix A.3 of RFC 6295 draws them, in either coding. */
  lemma LogOctets(log: Log)
    ensures var s := PackedLog(log);
            && |s| == LOG_SIZE && s[0] / 128 == log.s && s[0] % 128 == log.number % 128 && s[1] / 128 == log.a
            && if log.a == 1 then s[1] / 64 % 2 == log.t && s[1] % 64 == log.value % 64 else s[1] % 128 == log.value % 128
  {
    var number, seven, six: nat := log.number % 128, log.value % 128, log.value % 64;
    assert PackedLog(log)[0] == log.s * 128 + number;
    assert PackedLog(log)[1] == if log.a == 1 then 128 + log.t * 64 + six else seven;
    BitAndSeven(log.s, number);
    ToolOctet(log.t, six);
  }

  lemma BehindTwo(a: seq<byte>, b: seq<byte>, i: nat)
    requires |a| == 2 && i > 0 && 2 * i < 2 + |b|
    ensures (a + b)[2 * i] == b[2 * (i - 1)]
  {
  }

  lemma FirstFlag(log: Log, rest: seq<byte>)
    requires log.number < 128
    ensures (PackedLog(log) + rest)[0] / 128 == log.s
  {
    BitAndSeven(log.s, log.number);
  }

  /** The S bits: that of the chapter, and that of each log in its place. */
  lemma {:induction false} FlagsFrom(logs: seq<Log>, k: nat, i: nat)
    requires k <= |logs| == CONTROLLERS && i < ActiveFrom(logs, k)
    ensures k <= Entries(logs, k)[i].number < CONTROLLERS
    ensures PackedLogs(logs, k)[2 * i] / 128 == logs[Entries(logs, k)[i].number].s
    decreases CONTROLLERS - k
  {
    var rest := PackedLogs(logs, k + 1);
    if !IsActive(logs, k) {
      FlagsFrom(logs, k + 1, i);
      assert PackedLogs(logs, k) == rest && Entries(logs, k) == Entries(logs, k + 1);
    } else if i == 0 {
      FirstFlag(logs[k], rest);
    } else {
      FlagsFrom(logs, k + 1, i - 1);
      BehindTwo(PackedLog(logs[k]), rest, i);
    }
  }

  lemma FlagsPacked(c: Chapter, i: nat)
    requires Valid(c) && i < ActiveFrom(c.logs, 0) < CONTROLLERS
    ensures Packed(c)[0] / 128 == c.s
    ensures Entries(c.logs, 0)[i].number < CONTROLLERS && Packed(c)[1 + 2 * i] / 128 == c.logs[Entries(c.logs, 0)[i].number].s
  {
    var n := ActiveFrom(c.logs, 0);
    BitAndSeven(c.s, n - 1);
    FlagsFrom(c.logs, 0, i);
    assert Packed(c)[1 + 2 * i] == PackedLogs(c.logs, 0)[2 * i];
  }

  lemma {:induction false} DecodeLogsPacked(c: Chapter, k: nat)
    requires Valid(c) && k <= CONTROLLERS
    ensures DecodeLogs(PackedLogs(c.logs, k)) == Some(Entries(c.logs, k))
    decreases CONTROLLERS - k
  {
    if k < CONTROLLERS {
      DecodeLogsPacked(c, k + 1);
      if IsActive(c.logs, k) {
        PackedLogFields(c.logs[k], PackedLogs(c.logs, k + 1));
      } else {
        assert [] + PackedLogs(c.logs, k + 1) == PackedLogs(c.logs, k + 1);
        assert [] + Entries(c.logs, k + 1) == Entries(c.logs, k + 1);
      }
    }
  }

  lemma DecodeZeros(n: nat)
    requires n > 1
    ensures DecodeLogs(seq(LOG_SIZE * n, i => 0)).Some? ==>
              |DecodeLogs(seq(LOG_SIZE * n, i => 0)).value| > 1 && DecodeLogs(seq(LOG_SIZE * n, i => 0)).value[1].number == 0
  {
    var s: seq<byte> := seq(LOG_SIZE * n, i => 0);
    var rest := DecodeLogs(s[LOG_SIZE..]);
    assert |s[LOG_SIZE..]| >= 2 && s[LOG_SIZE..][0] == 0;
    if rest.Some? {
      assert rest.value[0].number == 0;
    }
  }

  /** The packed chapter decodes to each active controller once, in ascending order, with its
      value, exactly when some controller of the channel is not active. */
  lemma DecodePackedExact(c: Chapter)
    requires Valid(c)
    ensures Decode(Packed(c)) == Some(Entries(c.logs, 0)) <==> ActiveFrom(c.logs, 0) < CONTROLLERS
  {
    var n := ActiveFrom(c.logs, 0);
    var s := Packed(c);
    if n == 0 {
      assert Entries(c.logs, 0) == [];
    } else if n < CONTROLLERS {
      assert s[HEADER_SIZE..] == PackedLogs(c.logs, 0);
      DecodeLogsPacked(c, 0);
    } else {
      assert s[HEADER_SIZE..] == seq(LOG_SIZE * n, i => 0);
      DecodeZeros(n);
    }
  }

  function ValuesFrom(logs: seq<Log>, k: nat): map<byte, byte>
    requires k <= |logs| == CONTROLLERS
  {
    map j: byte | k <= j < CONTROLLERS && IsActive(logs, j) :: logs[j].value
  }

  lemma ValuesFromStep(m: map<byte, byte>, logs: seq<Log>, k: byte)
    requires k < |logs| == CONTROLLERS
    ensures IsActive(logs, k) ==> m[k := logs[k].value] + ValuesFrom(logs, k + 1) == m + ValuesFrom(logs, k)
    ensures !IsActive(logs, k) ==> ValuesFrom(logs, k + 1) == ValuesFrom(logs, k)
  {
    var a, b := ValuesFrom(logs, k + 1), ValuesFrom(logs, k);
    assert forall j :: j in b <==> j in a || (j == k && IsActive(logs, k));
    assert forall j :: j in a ==> a[j] == b[j];
  }

  lemma {:induction false} ApplyEntries(m: map<byte, byte>, logs: seq<Log>, k: nat)
    requires k <= |logs| == CONTROLLERS
    ensures Apply(m, Entries(logs, k)) == m + ValuesFrom(logs, k)
    decreases CONTROLLERS - k
  {
    if k == CONTROLLERS {
      assert ValuesFrom(logs, k) == map[];
      assert Entries(logs, k) == [];
    } else {
      var es := Entries(logs, k + 1);
      ValuesFromStep(m, logs, k);
      if IsActive(logs, k) {
        assert Entries(logs, k) == [Entry(k, logs[k].value)] + es;
        assert Entries(logs, k)[1..] == es;
        ApplyEntries(m[k := logs[k].value], logs, k + 1);
      } else {
        assert Entries(logs, k) == es;
        ApplyEntries(m, logs, k + 1);
      }
    }
  }

  /** A receiver that applies the decoded entries sets exactly the active controllers. */
  lemma ApplySetsValues(m: map<byte, byte>, c: Chapter)
    requires Valid(c)
    ensures Apply(m, Entries(c.logs, 0)) == m + Values(c)
  {
    ApplyEntries(m, c.logs, 0);
    assert ValuesFrom(c.logs, 0) == Values(c);
  }

  /** Every controller inactive is what makes the chapter vanish from the packed channel. */
  lemma {:induction false} ActiveCount(logs: seq<Log>, k: nat)
    requires k <= |logs|
    ensures ActiveFrom(logs, k) == 0 <==> forall j :: k <= j < |logs| ==> !IsActive(logs, j)
    ensures ActiveFrom(logs, k) == |logs| - k <==> forall j :: k <= j < |logs| ==> IsActive(logs, j)
    decreases |logs| - k
  {
    if k < |logs| {
      ActiveCount(logs, k + 1);
    }
  }
}
