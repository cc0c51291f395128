/**
 * The exact fit in src/http_sse.c: growth is tested without the terminator, which is then stored
 * one past the end of the data buffer. When exactly that happens, over lines and over octets.
 */
module SseOverrun {
  import opened Bytes
  import opened SseMachine

  // ---------- over lines ----------

  /** The line's value, with a line feed, fills the data buffer exactly. */
  predicate FillsExactly(m: Machine, line: seq<byte>) {
    HasField(line, DATA) && |m.data| + |Value(line)| + 1 == m.dataCap
  }

  lemma OneLine(m: Machine, line: seq<byte>)
    requires Wf(m)
    ensures ProcessLine(m, line).m.overrun <==> m.overrun || FillsExactly(m, line)
  {
  }

  /** From any state: the first lines up to `k` are processed, and line `k` fills the buffer exactly. */
  ghost predicate FilledAt(m: Machine, ls: seq<seq<byte>>, k: nat)
    requires Wf(m)
  {
    k < |ls| && RunLines(m, ls[..k]).rc == Success && FillsExactly(RunLines(m, ls[..k]).m, ls[k])
  }

  lemma FilledFirst(m: Machine, line: seq<byte>, more: seq<seq<byte>>, k: nat)
    requires Wf(m) && ProcessLine(m, line).rc == Success
    ensures FilledAt(m, [line] + more, k + 1) <==> FilledAt(ProcessLine(m, line).m, more, k)
  {
    if k < |more| {
      assert ([line] + more)[..k + 1] == [line] + more[..k];
      assert ([line] + more[..k])[1..] == more[..k];
    }
  }

  /** Whole runs: the terminator is stored outside if and only if some line fills the buffer exactly. */
  lemma {:induction false} OverrunOverLines(m: Machine, ls: seq<seq<byte>>)
    requires Wf(m)
    ensures RunLines(m, ls).m.overrun <==> m.overrun || exists k: nat :: FilledAt(m, ls, k)
    decreases |ls|
  {
    if ls == [] {
    } else {
      var line, more := ls[0], ls[1..];
      assert ls == [line] + more;
      OneLine(m, line);
      assert ls[..0] == [];
      assert FilledAt(m, ls, 0) <==> FillsExactly(m, line);
      var o := ProcessLine(m, line);
      if o.rc == Success {
        OverrunOverLines(o.m, more);
        forall k: nat
          ensures FilledAt(m, ls, k + 1) <==> FilledAt(o.m, more, k)
        {
          FilledFirst(m, line, more, k);
        }
        if k: nat :| FilledAt(m, ls, k) && k > 0 {
          assert FilledAt(o.m, more, k - 1);
        }
      } else {
        FailedLater(m, ls);
      }
    }
  }

  lemma FailedLater(m: Machine, ls: seq<seq<byte>>)
    requires Wf(m) && ls != [] && ProcessLine(m, ls[0]).rc != Success
    ensures !FillsExactly(m, ls[0])
    ensures forall k: nat :: FilledAt(m, ls, k) ==> k == 0
  {
    forall k: nat | 0 < k < |ls|
      ensures RunLines(m, ls[..k]).rc != Success
    {
      assert ls[..k][0] == ls[0];
    }
  }

  // ---------- in terms of lengths ----------

  /** How much data the lines leave behind, each value with its line feed. */
  function Held(ls: seq<seq<byte>>): nat {
    if ls == [] || ls[|ls| - 1] == [] then 0
    else
      var line := ls[|ls| - 1];
      Held(ls[..|ls| - 1]) + if HasField(line, DATA) then |Value(line)| + 1 else 0
  }

  /** The most that was held at any time. */
  function Peak(ls: seq<seq<byte>>): nat {
    if ls == [] then 0 else Max(Peak(ls[..|ls| - 1]), Held(ls))
  }

  /** The capacity of the data buffer: doubled until it holds the most and a terminator. */
  function Capacity(ls: seq<seq<byte>>): nat {
    Grow(4096, Peak(ls) + 1)
  }

  lemma CapacityStep(peak: nat, need: nat)
    ensures var cap := Grow(4096, peak + 1);
            && (need > cap ==> Grow(2 * cap, need + 1) == Grow(4096, Max(peak, need) + 1))
            && (need < cap ==> cap == Grow(4096, Max(peak, need) + 1))
  {
    if peak < need {
      GrowTwice(4096, peak + 1, need + 1);
    }
  }

  /** What the lines leave behind in a machine: the data held, and as long as all went well the capacity. */
  ghost predicate Tracks(m: Machine, ls: seq<seq<byte>>) {
    |m.data| == Held(ls) && (!m.overrun ==> m.dataCap == Capacity(ls))
  }

  lemma PeakIsMost(ls: seq<seq<byte>>)
    ensures Held(ls) <= Peak(ls)
  {
  }

  lemma DataTracks(m: Machine, ls: seq<seq<byte>>, line: seq<byte>)
    requires Wf(m) && Tracks(m, ls) && HasField(line, DATA) && AppendData(m, Value(line)).rc == Success
    ensures Tracks(AppendData(m, Value(line)).m, ls + [line])
  {
    var all := ls + [line];
    assert all[..|all| - 1] == ls && all[|all| - 1] == line;
    CapacityStep(Peak(ls), Held(all));
  }

  lemma TracksStep(m: Machine, ls: seq<seq<byte>>, line: seq<byte>)
    requires Wf(m) && Tracks(m, ls) && ProcessLine(m, line).rc == Success
    ensures Tracks(ProcessLine(m, line).m, ls + [line])
  {
    var all := ls + [line];
    assert all[..|all| - 1] == ls && all[|all| - 1] == line;
    PeakIsMost(ls);
    if HasField(line, DATA) {
      FieldNames();
      DataTracks(m, ls, line);
    }
  }

  lemma LastLine(m: Machine, line: seq<byte>)
    requires Wf(m)
    ensures RunLines(m, [line]).m == ProcessLine(m, line).m && RunLines(m, [line]).rc == ProcessLine(m, line).rc
  {
    var more: seq<seq<byte>> := [];
    assert [line][1..] == more;
  }

  lemma {:induction false} StateTracks(m: Machine, ls: seq<seq<byte>>)
    requires Wf(m) && Tracks(m, []) && RunLines(m, ls).rc == Success
    ensures Tracks(RunLines(m, ls).m, ls)
  {
    if ls != [] {
      var most, line := ls[..|ls| - 1], ls[|ls| - 1];
      assert ls == most + [line];
      LinesConcat(m, most, [line]);
      StateTracks(m, most);
      var q := RunLines(m, most).m;
      LastLine(q, line);
      TracksStep(q, most, line);
    }
  }

  /** Line `k` brings the data held exactly to the capacity; this depends on the lengths alone. */
  predicate LengthFills(ls: seq<seq<byte>>, k: nat) {
    k < |ls| && HasField(ls[k], DATA) && Held(ls[..k + 1]) == Capacity(ls[..k])
  }

  lemma FillsByLength(m: Machine, ls: seq<seq<byte>>, k: nat)
    requires Wf(m) && Tracks(m, []) && k < |ls| && RunLines(m, ls[..k]).rc == Success
    requires !RunLines(m, ls[..k]).m.overrun
    ensures FilledAt(m, ls, k) <==> LengthFills(ls, k)
  {
    StateTracks(m, ls[..k]);
    assert ls[..k + 1][..k] == ls[..k] && ls[..k + 1][k] == ls[k];
  }

  /** If a line fills the buffer, one does so for the first time, and there the lengths say so. */
  lemma {:induction false} FirstFilled(m: Machine, ls: seq<seq<byte>>, k: nat) returns (first: nat)
    requires Wf(m) && Tracks(m, []) && !m.overrun && FilledAt(m, ls, k)
    ensures FilledAt(m, ls, first) && LengthFills(ls, first)
    decreases k
  {
    OverrunOverLines(m, ls[..k]);
    if RunLines(m, ls[..k]).m.overrun {
      var j: nat :| FilledAt(m, ls[..k], j);
      assert ls[..k][..j] == ls[..j];
      first := FirstFilled(m, ls, j);
    } else {
      FillsByLength(m, ls, k);
      first := k;
    }
  }

  /** Some line up to which all succeeds fills the buffer, by its length. */
  ghost predicate FilledSomewhere(m: Machine, ls: seq<seq<byte>>)
    requires Wf(m)
  {
    exists k: nat :: k < |ls| && RunLines(m, ls[..k]).rc == Success && LengthFills(ls, k)
  }

  /**
   * The exact condition over whole runs of a fresh parser: some `data` line brings the data held
   * since the last empty line exactly to the capacity, a function of the lengths so far.
   */
  lemma OverrunExactly(m: Machine, ls: seq<seq<byte>>)
    requires Wf(m) && Tracks(m, []) && !m.overrun
    ensures RunLines(m, ls).m.overrun <==> FilledSomewhere(m, ls)
  {
    OverrunOverLines(m, ls);
    if RunLines(m, ls).m.overrun {
      var k: nat :| FilledAt(m, ls, k);
      var first := FirstFilled(m, ls, k);
    }
    if FilledSomewhere(m, ls) {
      SomewhereFilled(m, ls);
    }
  }

  lemma SomewhereFilled(m: Machine, ls: seq<seq<byte>>)
    requires Wf(m) && Tracks(m, []) && !m.overrun && FilledSomewhere(m, ls)
    ensures exists k: nat :: FilledAt(m, ls, k)
  {
    var k: nat :| k < |ls| && RunLines(m, ls[..k]).rc == Success && LengthFills(ls, k);
    OverrunOverLines(m, ls[..k]);
    if RunLines(m, ls[..k]).m.overrun {
      var j: nat :| FilledAt(m, ls[..k], j);
      assert ls[..k][..j] == ls[..j];
      assert FilledAt(m, ls, j);
    } else {
      FillsByLength(m, ls, k);
    }
  }

  // ---------- over octets ----------

  lemma {:induction false} PrefixSucceeds(m: Machine, ls: seq<seq<byte>>, k: nat)
    requires Wf(m) && k <= |ls| && RunLines(m, ls).rc == Success
    ensures RunLines(m, ls[..k]).rc == Success
    decreases k
  {
    if k > 0 {
      PrefixSucceeds(ProcessLine(m, ls[0]).m, ls[1..], k - 1);
      assert ls[..k][0] == ls[0] && ls[..k][1..] == ls[1..][..k - 1];
    }
  }

  /**
   * Any octets, cut in any way, fed to a fresh parser: the terminator is stored outside the buffer
   * if and only if, among the lines read before the first error, one fills the buffer by its length.
   */
  lemma OverrunOverOctets(limit: nat, id: Option<seq<byte>>, retry: int, chunks: seq<seq<byte>>)
    ensures var m, s := Initial(limit, id, retry), Flatten(chunks);
            var ls := Lines([], s[..Read(m, s)]);
            RunChunks(m, chunks).m.overrun <==> exists k: nat :: LengthFills(ls, k)
  {
    var m, s := Initial(limit, id, retry), Flatten(chunks);
    var p := s[..Read(m, s)];
    var ls := Lines([], p);
    ChunkingIndependence(m, chunks);
    ReadPrefix(m, s);
    RunIsLines(m, p);
    assert Tracks(m, []);
    OverrunExactly(m, ls);
    forall k: nat | k < |ls|
      ensures RunLines(m, ls[..k]).rc == Success
    {
      PrefixSucceeds(m, ls, k);
    }
    assert (exists k: nat :: LengthFills(ls, k)) ==> FilledSomewhere(m, ls);
  }

  // ---------- a stream that does it ----------

  /** `data:` and `n` times the letter x. */
  function DataOf(n: nat): (line: seq<byte>)
    ensures |line| == 5 + n
  {
    DATA + [COLON] + seq(n, _ => 120)
  }

  function Repeated(line: seq<byte>, n: nat): seq<seq<byte>> {
    if n == 0 then [] else Repeated(line, n - 1) + [line]
  }

  lemma {:induction false} RepeatedLength(line: seq<byte>, n: nat)
    ensures |Repeated(line, n)| == n && forall l <- Repeated(line, n) :: l == line
  {
    if n > 0 {
      RepeatedLength(line, n - 1);
    }
  }

  lemma DataHeld(ls: seq<seq<byte>>, size: nat)
    ensures var all, held := ls + [DataOf(size)], Held(ls) + (size + 1);
            Held(all) == held && Peak(all) == Max(Peak(ls), held)
  {
    var all := ls + [DataOf(size)];
    assert all[..|all| - 1] == ls;
    DataLine(seq(size, _ => 120));
  }

  lemma OneMore(n: nat, size: nat)
    requires n > 0
    ensures n * size == (n - 1) * size + size
  {
  }

  lemma {:induction false} RepeatedHeld(size: nat, n: nat)
    ensures Held(Repeated(DataOf(size), n)) == n * (size + 1) == Peak(Repeated(DataOf(size), n))
  {
    if n > 0 {
      RepeatedHeld(size, n - 1);
      DataHeld(Repeated(DataOf(size), n - 1), size);
      OneMore(n, size + 1);
    }
  }

  /** Eight lines of 511 octets of data. */
  function EightLines(): seq<byte> {
    Octets(Repeated(DataOf(511), 8))
  }

  /** As long as the data fits the first buffer, no line is refused, whatever the limit. */
  lemma {:induction false} SmallAccepted(m: Machine, size: nat, n: nat)
    requires Wf(m) && m.data == [] && n * (size + 1) <= m.dataCap
    ensures var o := RunLines(m, Repeated(DataOf(size), n));
            o.rc == Success && |o.m.data| == n * (size + 1) && o.m.dataCap == m.dataCap
  {
    if n > 0 {
      var most, line := Repeated(DataOf(size), n - 1), DataOf(size);
      OneMore(n, size + 1);
      SmallAccepted(m, size, n - 1);
      LinesConcat(m, most, [line]);
      LastLine(RunLines(m, most).m, line);
      DataLine(seq(size, _ => 120));
    }
  }

  /** For every limit: these octets are accepted, and the terminator is stored outside the buffer. */
  lemma OverrunHappens(limit: nat, id: Option<seq<byte>>, retry: int)
    ensures var o := Run(Initial(limit, id, retry), EightLines());
            o.rc == Success && o.m.overrun
  {
    var m, line := Initial(limit, id, retry), DataOf(511);
    var ls := Repeated(line, 8);
    RepeatedLength(line, 8);
    assert Plain(line);
    OctetsSplit(ls);
    assert AllFit(m.lineCap, m.limit, m.line, EightLines());
    LineRefinement(m, m, EightLines());
    SmallAccepted(m, 511, 8);
    OverrunAt(m, ls);
  }

  lemma OverrunAt(m: Machine, ls: seq<seq<byte>>)
    requires Wf(m) && Tracks(m, []) && !m.overrun && ls == Repeated(DataOf(511), 8)
    requires RunLines(m, ls).rc == Success
    ensures RunLines(m, ls).m.overrun
  {
    var most, line := Repeated(DataOf(511), 7), DataOf(511);
    assert ls == most + [line];
    RepeatedLength(line, 7);
    RepeatedHeld(511, 7);
    RepeatedHeld(511, 8);
    DataLine(seq(511, _ => 120));
    assert ls[..7] == most && ls[..8] == ls;
    assert LengthFills(ls, 7);
    PrefixSucceeds(m, ls, 7);
    OverrunExactly(m, ls);
  }
}
