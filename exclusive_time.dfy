// Exclusive Time of Functions: a single-threaded CPU runs calls whose start
// and end events are logged as "id:start:time" and "id:end:time". A start
// takes effect at the beginning of its time unit and an end at the end of
// its time unit; a function's exclusive time is the time it spent on top of
// the call stack. Five solutions compute it.

module ExclusiveTime {
  import opened Common

  // ---------------------------------------------------------------------
  // Log lines
  // ---------------------------------------------------------------------

  datatype Kind = Start | End

  /** One parsed log line. */
  datatype Log = Log(id: nat, kind: Kind, time: nat)

  /** Python's str.split(sep): the pieces between occurrences of sep. */
  function Split(s: string, sep: char): (r: seq<string>)
    ensures |r| >= 1
    decreases |s|
  {
    if s == [] then [[]]
    else
      var t := Split(s[1..], sep);
      if s[0] == sep then [[]] + t else [[s[0]] + t[0]] + t[1..]
  }

  lemma {:induction false} SplitWhole(a: string, sep: char)
    requires sep !in a
    ensures Split(a, sep) == [a]
    decreases |a|
  {
    if a != [] {
      SplitWhole(a[1..], sep);
      assert [a[0]] + a[1..] == a;
    }
  }

  lemma {:induction false} SplitAt(a: string, sep: char, b: string)
    requires sep !in a
    ensures Split(a + [sep] + b, sep) == [a] + Split(b, sep)
    decreases |a|
  {
    if a == [] {
      assert a + [sep] + b == [sep] + b;
      assert ([sep] + b)[1..] == b;
    } else {
      assert (a + [sep] + b)[1..] == a[1..] + [sep] + b;
      SplitAt(a[1..], sep, b);
      assert [a[0]] + a[1..] == a;
    }
  }

  predicate IsDigit(c: char) {
    '0' <= c <= '9'
  }

  /** A string int() reads as a non-negative decimal number. */
  predicate IsNumeral(s: string) {
    |s| > 0 && forall i :: 0 <= i < |s| ==> IsDigit(s[i])
  }

  /** The value of a string of decimal digits. */
  function NatOf(s: string): nat
    requires forall i :: 0 <= i < |s| ==> IsDigit(s[i])
    decreases |s|
  {
    if s == [] then 0
    else
      assert IsDigit(s[|s| - 1]);
      10 * NatOf(s[..|s| - 1]) + (s[|s| - 1] as int - '0' as int)
  }

  function DigitChar(d: nat): (c: char)
    requires d < 10
    ensures IsDigit(c) && c as int - '0' as int == d
  {
    (d + '0' as int) as char
  }

  /** str(n) for a non-negative n. */
  function Show(n: nat): (s: string)
    ensures IsNumeral(s)
  {
    if n < 10 then [DigitChar(n)] else Show(n / 10) + [DigitChar(n % 10)]
  }

  /** int(str(n)) == n. */
  lemma {:induction false} NatOfShow(n: nat)
    ensures NatOf(Show(n)) == n
  {
    var s := Show(n);
    if n < 10 {
      assert s[..0] == [];
    } else {
      NatOfShow(n / 10);
      assert s[..|s| - 1] == Show(n / 10);
    }
  }

  function KindWord(k: Kind): string {
    if k == Start then "start" else "end"
  }

  /** The log line of an event. */
  function Format(l: Log): string {
    Show(l.id) + ":" + KindWord(l.kind) + ":" + Show(l.time)
  }

  lemma NoColon(s: string)
    requires IsNumeral(s) || s == "start" || s == "end"
    ensures ':' !in s
  {
    forall i | 0 <= i < |s|
      ensures s[i] != ':'
    {
      if IsNumeral(s) {
        assert IsDigit(s[i]);
      }
    }
  }

  lemma SplitFormat(l: Log)
    ensures Split(Format(l), ':') == [Show(l.id), KindWord(l.kind), Show(l.time)]
  {
    var a, w, b := Show(l.id), KindWord(l.kind), Show(l.time);
    NoColon(a);
    NoColon(w);
    NoColon(b);
    assert Format(l) == a + [':'] + (w + [':'] + b);
    SplitAt(a, ':', w + [':'] + b);
    SplitAt(w, ':', b);
    SplitWhole(b, ':');
  }

  /** Python's int(field): the value of a numeral, None where int() raises. */
  function Field(s: string, k: nat): Option<nat> {
    var p := Split(s, ':');
    if |p| <= k || !IsNumeral(p[k]) then None else Some(NatOf(p[k]))
  }

  /**
   * `func_id, log_type, timestamp = log.split(":")` followed by the two
   * int() calls; None where the unpacking or int() raises. Any type other
   * than "start" is treated as an end, as the solutions' else branches do.
   */
  function ParseLog(s: string): Option<Log> {
    var p := Split(s, ':');
    if |p| != 3 || !IsNumeral(p[0]) || !IsNumeral(p[2]) then None
    else Some(Log(NatOf(p[0]), if p[1] == "start" then Start else End, NatOf(p[2])))
  }

  /** Parsing a formatted log line gives the event back. */
  lemma ParseFormat(l: Log)
    ensures ParseLog(Format(l)) == Some(l)
    ensures Field(Format(l), 0) == Some(l.id)
    ensures Field(Format(l), 2) == Some(l.time)
  {
    SplitFormat(l);
    NatOfShow(l.id);
    NatOfShow(l.time);
  }

  /** "end" occurs in s at position i. */
  predicate EndAt(s: string, i: int) {
    0 <= i && i + 3 <= |s| && s[i..i + 3] == "end"
  }

  /** Python's `"end" in s`. */
  predicate HasEnd(s: string) {
    exists i :: 0 <= i <= |s| - 3 && EndAt(s, i)
  }

  /** Solution 1 tells an end line from a start line by the substring "end". */
  lemma EndInFormat(l: Log)
    ensures HasEnd(Format(l)) <==> l.kind == End
  {
    var a, w, b := Show(l.id), KindWord(l.kind), Show(l.time);
    var s := Format(l);
    assert s == a + [':'] + w + [':'] + b;
    if l.kind == End {
      var i := |a| + 1;
      assert s[i..i + 3] == w;
      assert EndAt(s, i);
    } else {
      forall j | 0 <= j < |s|
        ensures s[j] != 'e'
      {
        if j < |a| {
          assert s[j] == a[j];
        } else if j == |a| || j == |a| + 6 {
        } else if j < |a| + 6 {
          assert s[j] == w[j - |a| - 1];
        } else {
          assert s[j] == b[j - |a| - 7];
        }
      }
      forall i | 0 <= i <= |s| - 3
        ensures !EndAt(s, i)
      {
        assert s[i..i + 3][0] == s[i];
      }
    }
  }

  // ---------------------------------------------------------------------
  // Specification: calls nest, and a call's exclusive time is its duration
  // less the durations of the calls made directly from it
  // ---------------------------------------------------------------------

  /** A call of function id from time start to time end (inclusive). */
  datatype Call = Call(id: nat, start: nat, end: nat, calls: seq<Call>)

  /** The log of one call: its start, the logs of its calls, its end. */
  function Events(c: Call): seq<Log>
    decreases c
  {
    [Log(c.id, Start, c.start)] + EventsOf(c.calls) + [Log(c.id, End, c.end)]
  }

  function EventsOf(cs: seq<Call>): seq<Log>
    decreases cs
  {
    if cs == [] then [] else Events(cs[0]) + EventsOf(cs[1..])
  }

  /** Every function id in the calls is below n. */
  predicate BelowIn(c: Call, n: nat)
    decreases c
  {
    c.id < n && Below(c.calls, n)
  }

  predicate Below(cs: seq<Call>, n: nat)
    decreases cs
  {
    cs == [] || (BelowIn(cs[0], n) && Below(cs[1..], n))
  }

  function Dur(c: Call): int {
    c.end - c.start + 1
  }

  function DurSum(cs: seq<Call>): int {
    if cs == [] then 0 else Dur(cs[0]) + DurSum(cs[1..])
  }

  /** The time a call spends on top of the stack. */
  function SelfTime(c: Call): int {
    Dur(c) - DurSum(c.calls)
  }

  /** The exclusive time of function f within one call. */
  function ExclIn(f: nat, c: Call): int
    decreases c
  {
    (if c.id == f then SelfTime(c) else 0) + ExclOf(f, c.calls)
  }

  /** The exclusive time of function f over a sequence of calls. */
  function ExclOf(f: nat, cs: seq<Call>): int
    decreases cs
  {
    if cs == [] then 0 else ExclIn(f, cs[0]) + ExclOf(f, cs[1..])
  }

  /**
   * The call is well timed: it ends no earlier than it starts, and the calls
   * it makes lie inside it, one after another.
   */
  predicate Timed(c: Call)
    decreases c, 1
  {
    c.start <= c.end && TimedIn(c.start, c.end, c.calls)
  }

  /** The calls start at lo or later, follow each other, and end by hi. */
  predicate TimedIn(lo: int, hi: int, cs: seq<Call>)
    decreases cs, 0
  {
    cs == [] ||
    (lo <= cs[0].start && cs[0].end <= hi && Timed(cs[0]) && TimedIn(cs[0].end + 1, hi, cs[1..]))
  }

  lemma {:induction false} DurSumWithin(lo: int, hi: int, cs: seq<Call>)
    requires TimedIn(lo, hi, cs) && lo <= hi + 1
    ensures DurSum(cs) <= hi - lo + 1
    decreases cs
  {
    if cs != [] {
      DurSumWithin(cs[0].end + 1, hi, cs[1..]);
    }
  }

  /** In a well-timed call no function's exclusive time is negative. */
  lemma {:induction false} ExclInNonNegative(f: nat, c: Call)
    requires Timed(c)
    ensures ExclIn(f, c) >= 0
    decreases c
  {
    DurSumWithin(c.start, c.end, c.calls);
    ExclOfNonNegative(f, c.start, c.end, c.calls);
  }

  lemma {:induction false} ExclOfNonNegative(f: nat, lo: int, hi: int, cs: seq<Call>)
    requires TimedIn(lo, hi, cs)
    ensures ExclOf(f, cs) >= 0
    decreases cs
  {
    if cs != [] {
      ExclInNonNegative(f, cs[0]);
      ExclOfNonNegative(f, cs[0].end + 1, hi, cs[1..]);
    }
  }

  /** The exclusive times of functions 0..n-1 within a call, added up. */
  function TotalIn(n: nat, c: Call): int {
    if n == 0 then 0 else TotalIn(n - 1, c) + ExclIn(n - 1, c)
  }

  function Total(n: nat, cs: seq<Call>): int {
    if n == 0 then 0 else Total(n - 1, cs) + ExclOf(n - 1, cs)
  }

  lemma {:induction false} TotalNil(n: nat)
    ensures Total(n, []) == 0
  {
    if n > 0 {
      TotalNil(n - 1);
    }
  }

  lemma {:induction false} TotalCons(n: nat, cs: seq<Call>)
    requires cs != []
    ensures Total(n, cs) == TotalIn(n, cs[0]) + Total(n, cs[1..])
  {
    if n > 0 {
      TotalCons(n - 1, cs);
    }
  }

  lemma {:induction false} TotalInSplit(n: nat, c: Call)
    ensures TotalIn(n, c) == (if c.id < n then SelfTime(c) else 0) + Total(n, c.calls)
  {
    if n > 0 {
      TotalInSplit(n - 1, c);
    }
  }

  /**
   * The exclusive times add up to the time spent in the outermost calls:
   * each unit of time is credited to exactly one function.
   */
  lemma {:induction false} TotalTime(n: nat, cs: seq<Call>)
    requires Below(cs, n)
    ensures Total(n, cs) == DurSum(cs)
    decreases cs
  {
    if cs == [] {
      TotalNil(n);
    } else {
      assert BelowIn(cs[0], n) && Below(cs[1..], n);
      TotalCons(n, cs);
      TotalInSplit(n, cs[0]);
      TotalTime(n, cs[0].calls);
      TotalTime(n, cs[1..]);
    }
  }

  /** The log lines of a sequence of events. */
  function Formatted(es: seq<Log>): (r: seq<string>)
    ensures |r| == |es|
  {
    if es == [] then [] else [Format(es[0])] + Formatted(es[1..])
  }

  lemma {:induction false} FormattedAt(es: seq<Log>, i: int)
    requires 0 <= i < |es|
    ensures Formatted(es)[i] == Format(es[i])
  {
    if i > 0 {
      FormattedAt(es[1..], i - 1);
    }
  }

  /** The sample log: function 0 runs from 0 to 6 and calls 1 from 2 to 5. */
  lemma Sample()
    ensures Formatted(EventsOf([Call(0, 0, 6, [Call(1, 2, 5, [])])]))
      == ["0:start:0", "1:start:2", "1:end:5", "0:end:6"]
    ensures ExclOf(0, [Call(0, 0, 6, [Call(1, 2, 5, [])])]) == 3
    ensures ExclOf(1, [Call(0, 0, 6, [Call(1, 2, 5, [])])]) == 4
  {
    var inner := Call(1, 2, 5, []);
    var outer := Call(0, 0, 6, [inner]);
    var es := [Log(0, Start, 0), Log(1, Start, 2), Log(1, End, 5), Log(0, End, 6)];
    assert EventsOf([inner]) == Events(inner) == [Log(1, Start, 2), Log(1, End, 5)];
    assert EventsOf([outer]) == Events(outer) == es;
    SampleLines();
    assert ExclOf(1, [inner]) == ExclIn(1, inner) == 4;
    assert ExclIn(0, inner) == 0;
  }

  lemma SampleLines()
    ensures Formatted([Log(0, Start, 0), Log(1, Start, 2), Log(1, End, 5), Log(0, End, 6)])
      == ["0:start:0", "1:start:2", "1:end:5", "0:end:6"]
  {
    var es := [Log(0, Start, 0), Log(1, Start, 2), Log(1, End, 5), Log(0, End, 6)];
    assert Show(0) == "0" && Show(1) == "1" && Show(2) == "2";
    assert Show(5) == "5" && Show(6) == "6";
    assert Format(es[0]) == "0:start:0";
    assert Format(es[1]) == "1:start:2";
    assert Format(es[2]) == "1:end:5";
    assert Format(es[3]) == "0:end:6";
    assert es[1..][1..][1..][1..] == [];
  }

  // ---------------------------------------------------------------------
  // Running a solution's loop body over a sequence of inputs
  // ---------------------------------------------------------------------

  /** The state after feeding es to step from s; None once a step raises. */
  function Run<S, E>(step: (S, E) -> Option<S>, s: S, es: seq<E>): Option<S> {
    if es == [] then Some(s)
    else
      var o := Run(step, s, es[..|es| - 1]);
      if o.None? then None else step(o.value, es[|es| - 1])
  }

  lemma {:induction false} RunAppend<S, E>(step: (S, E) -> Option<S>, s: S, a: seq<E>, b: seq<E>)
    ensures Run(step, s, a + b)
      == (var o := Run(step, s, a); if o.None? then None else Run(step, o.value, b))
    decreases |b|
  {
    if b == [] {
      assert a + b == a;
    } else {
      assert (a + b)[..|a + b| - 1] == a + b[..|b| - 1];
      RunAppend(step, s, a, b[..|b| - 1]);
    }
  }

  lemma RunOne<S, E>(step: (S, E) -> Option<S>, s: S, e: E)
    ensures Run(step, s, [e]) == step(s, e)
  {
    assert [e][..0] == [];
  }

  /** Once the whole run succeeds, so does every step of it. */
  lemma RunPrefix<S, E>(step: (S, E) -> Option<S>, s: S, es: seq<E>, i: int)
    requires Run(step, s, es).Some? && 0 <= i < |es|
    ensures Run(step, s, es[..i]).Some?
    ensures step(Run(step, s, es[..i]).value, es[i]).Some?
  {
    assert es == es[..i + 1] + es[i + 1..];
    RunAppend(step, s, es[..i + 1], es[i + 1..]);
    assert es[..i + 1][..i] == es[..i];
  }

  /** One more step of the loop. */
  lemma RunNext<S, E>(step: (S, E) -> Option<S>, s: S, es: seq<E>, i: int)
    requires 0 <= i < |es|
    ensures Run(step, s, es[..i + 1])
      == (var o := Run(step, s, es[..i]); if o.None? then None else step(o.value, es[i]))
  {
    assert es[..i + 1][..i] == es[..i];
  }

  function Top<T>(st: seq<T>): T
    requires st != []
  {
    st[|st| - 1]
  }

  function Pop<T>(st: seq<T>): seq<T>
    requires st != []
  {
    st[..|st| - 1]
  }

  /** `result[f] += d`, None where the index is out of range. */
  function Credit(res: seq<int>, f: nat, d: int): Option<seq<int>> {
    if f < |res| then Some(res[f := res[f] + d]) else None
  }

  function Zeros(n: nat): (r: seq<int>)
    ensures |r| == n && forall f :: 0 <= f < n ==> r[f] == 0
  {
    seq(n, _ => 0)
  }

  // ---------------------------------------------------------------------
  // Solution 2 (and 5): one stack of ids and the time of the last change
  // ---------------------------------------------------------------------

  datatype Prev = Prev(stack: seq<nat>, prev: int, res: seq<int>)

  /** The loop body of exclusiveTime2 on one parsed log. */
  function PrevStep(s: Prev, l: Log): Option<Prev> {
    if l.kind == Start then
      if s.stack == [] then Some(Prev(s.stack + [l.id], l.time, s.res))
      else
        var r := Credit(s.res, Top(s.stack), l.time - s.prev);
        if r.None? then None else Some(Prev(s.stack + [l.id], l.time, r.value))
    else if s.stack == [] then None
    else
      var r := Credit(s.res, Top(s.stack), l.time - s.prev + 1);
      if r.None? then None else Some(Prev(Pop(s.stack), l.time + 1, r.value))
  }

  /** The time the running function gains from prev up to a sequence of calls. */
  function Gaps(q: int, cs: seq<Call>): int
    decreases cs
  {
    if cs == [] then 0 else (cs[0].start - q) + Gaps(cs[0].end + 1, cs[1..])
  }

  /** prev after a sequence of calls. */
  function Last(q: int, cs: seq<Call>): int
    decreases cs
  {
    if cs == [] then q else Last(cs[0].end + 1, cs[1..])
  }

  lemma {:induction false} GapsLast(q: int, cs: seq<Call>)
    ensures Gaps(q, cs) - Last(q, cs) == -q - DurSum(cs)
    decreases cs
  {
    if cs != [] {
      GapsLast(cs[0].end + 1, cs[1..]);
    }
  }

  predicate TopBelow(st: seq<nat>, n: nat) {
    st != [] ==> Top(st) < n
  }

  /** The top of the stack gains the time up to the call's start. */
  function Paused(st: seq<nat>, f: nat, d: int): int {
    if st != [] && f == Top(st) then d else 0
  }

  lemma {:induction false} PrevOnCall(st: seq<nat>, q: int, r: seq<int>, c: Call) returns (t: Prev)
    requires BelowIn(c, |r|) && TopBelow(st, |r|)
    ensures Run(PrevStep, Prev(st, q, r), Events(c)) == Some(t)
    ensures t.stack == st && t.prev == c.end + 1 && |t.res| == |r|
    ensures forall f :: 0 <= f < |r| ==> t.res[f] == r[f] + ExclIn(f, c) + Paused(st, f, c.start - q)
    decreases c
  {
    var s0 := Prev(st, q, r);
    var first, last := Log(c.id, Start, c.start), Log(c.id, End, c.end);
    var inner := EventsOf(c.calls);
    var s1 := PrevStep(s0, first).value;
    assert s1.stack == st + [c.id] && s1.prev == c.start && |s1.res| == |r|;
    assert forall f :: 0 <= f < |r| ==> s1.res[f] == r[f] + Paused(st, f, c.start - q);
    RunOne(PrevStep, s0, first);
    var s2 := PrevOnCalls(st + [c.id], c.start, s1.res, c.calls);
    RunAppend(PrevStep, s0, [first], inner);
    t := PrevStep(s2, last).value;
    assert t.stack == st by {
      assert Pop(st + [c.id]) == st;
    }
    RunOne(PrevStep, s2, last);
    RunAppend(PrevStep, s0, [first] + inner, [last]);
    GapsLast(c.start, c.calls);
    forall f | 0 <= f < |r|
      ensures t.res[f] == r[f] + ExclIn(f, c) + Paused(st, f, c.start - q)
    {
      assert t.res[f] == s2.res[f] + (if f == c.id then c.end - s2.prev + 1 else 0);
      assert s2.res[f] == s1.res[f] + ExclOf(f, c.calls) + Paused(st + [c.id], f, Gaps(c.start, c.calls));
    }
  }

  lemma {:induction false} PrevOnCalls(st: seq<nat>, q: int, r: seq<int>, cs: seq<Call>) returns (t: Prev)
    requires Below(cs, |r|) && TopBelow(st, |r|)
    ensures Run(PrevStep, Prev(st, q, r), EventsOf(cs)) == Some(t)
    ensures t.stack == st && t.prev == Last(q, cs) && |t.res| == |r|
    ensures forall f :: 0 <= f < |r| ==> t.res[f] == r[f] + ExclOf(f, cs) + Paused(st, f, Gaps(q, cs))
    decreases cs
  {
    var s0 := Prev(st, q, r);
    if cs == [] {
      t := s0;
    } else {
      var s1 := PrevOnCall(st, q, r, cs[0]);
      t := PrevOnCalls(st, cs[0].end + 1, s1.res, cs[1..]);
      RunAppend(PrevStep, s0, Events(cs[0]), EventsOf(cs[1..]));
      assert EventsOf(cs) == Events(cs[0]) + EventsOf(cs[1..]);
      forall f | 0 <= f < |r|
        ensures t.res[f] == r[f] + ExclOf(f, cs) + Paused(st, f, Gaps(q, cs))
      {
        assert t.res[f] == s1.res[f] + ExclOf(f, cs[1..]) + Paused(st, f, Gaps(cs[0].end + 1, cs[1..]));
        assert s1.res[f] == r[f] + ExclIn(f, cs[0]) + Paused(st, f, cs[0].start - q);
      }
    }
  }

  /** exclusiveTime2's loop, run over a well-nested log, computes ExclOf. */
  lemma PrevOnForest(n: nat, forest: seq<Call>) returns (t: Prev)
    requires Below(forest, n)
    ensures Run(PrevStep, Prev([], 0, Zeros(n)), EventsOf(forest)) == Some(t)
    ensures |t.res| == n && forall f :: 0 <= f < n ==> t.res[f] == ExclOf(f, forest)
  {
    t := PrevOnCalls([], 0, Zeros(n), forest);
  }

  /** A log is the formatted event sequence of a forest of calls on functions below n. */
  predicate WellNested(n: nat, logs: seq<string>, forest: seq<Call>) {
    Below(forest, n) && logs == Formatted(EventsOf(forest))
  }

  /** Every line of a formatted log parses back to its event. */
  lemma ParseAll(logs: seq<string>, events: seq<Log>)
    requires logs == Formatted(events)
    ensures |logs| == |events|
    ensures forall i :: 0 <= i < |logs| ==> ParseLog(logs[i]) == Some(events[i])
  {
    forall i | 0 <= i < |logs|
      ensures ParseLog(logs[i]) == Some(events[i])
    {
      FormattedAt(events, i);
      ParseFormat(events[i]);
    }
  }

  /** The body of exclusiveTime2's loop (and exclusiveTime5's second loop) on one parsed log. */
  method PrevLine(stack: seq<nat>, prev: int, result: seq<int>, l: Log)
    returns (stack': seq<nat>, prev': int, result': seq<int>)
    requires PrevStep(Prev(stack, prev, result), l).Some?
    ensures PrevStep(Prev(stack, prev, result), l) == Some(Prev(stack', prev', result'))
  {
    stack', prev', result' := stack, prev, result;
    if l.kind == Start {
      if stack' != [] {
        result' := result'[stack'[|stack'| - 1] := result'[stack'[|stack'| - 1]] + l.time - prev'];
      }
      stack' := stack' + [l.id];
      prev' := l.time;
    } else {
      result' := result'[stack'[|stack'| - 1] := result'[stack'[|stack'| - 1]] + l.time - prev' + 1];
      stack' := stack'[..|stack'| - 1];
      prev' := l.time + 1;
    }
  }

  /** Method 2: one stack of ids plus the time the running function resumed. */
  method ExclusiveTime2(n: nat, logs: seq<string>, ghost forest: seq<Call>) returns (result: seq<int>)
    requires WellNested(n, logs, forest)
    ensures |result| == n && forall f :: 0 <= f < n ==> result[f] == ExclOf(f, forest)
  {
    ghost var events := EventsOf(forest);
    ParseAll(logs, events);
    ghost var done := PrevOnForest(n, forest);
    result := Zeros(n);
    var stack: seq<nat> := [];
    var prev := 0;
    for i := 0 to |logs|
      invariant Run(PrevStep, Prev([], 0, Zeros(n)), events[..i]) == Some(Prev(stack, prev, result))
    {
      RunPrefix(PrevStep, Prev([], 0, Zeros(n)), events, i);
      RunNext(PrevStep, Prev([], 0, Zeros(n)), events, i);
      var l := ParseLog(logs[i]).value;
      stack, prev, result := PrevLine(stack, prev, result, l);
    }
    assert events[..|logs|] == events;
  }


  /** Method 5: parse every log into a record first, then run method 2's loop. */
  method ExclusiveTime5(n: nat, logs: seq<string>, ghost forest: seq<Call>) returns (result: seq<int>)
    requires WellNested(n, logs, forest)
    ensures |result| == n && forall f :: 0 <= f < n ==> result[f] == ExclOf(f, forest)
  {
    ghost var events := EventsOf(forest);
    ParseAll(logs, events);
    var parsedLogs: seq<Log> := [];
    for i := 0 to |logs|
      invariant parsedLogs == events[..i]
    {
      parsedLogs := parsedLogs + [ParseLog(logs[i]).value];
      assert events[..i + 1] == events[..i] + [events[i]];
    }
    assert parsedLogs == events;
    ghost var done := PrevOnForest(n, forest);
    result := Zeros(n);
    var stack: seq<nat> := [];
    var prev := 0;
    for i := 0 to |parsedLogs|
      invariant Run(PrevStep, Prev([], 0, Zeros(n)), parsedLogs[..i]) == Some(Prev(stack, prev, result))
    {
      RunPrefix(PrevStep, Prev([], 0, Zeros(n)), parsedLogs, i);
      RunNext(PrevStep, Prev([], 0, Zeros(n)), parsedLogs, i);
      stack, prev, result := PrevLine(stack, prev, result, parsedLogs[i]);
    }
    assert parsedLogs[..|parsedLogs|] == parsedLogs;
  }


  // ---------------------------------------------------------------------
  // Solution 3: a stack of ids and a parallel stack of resume times
  // ---------------------------------------------------------------------

  datatype Resume = Resume(stack: seq<nat>, times: seq<int>, res: seq<int>)

  /** The loop body of exclusiveTime3 on one parsed log. */
  function ResumeStep(s: Resume, l: Log): Option<Resume> {
    if l.kind == Start then
      if s.stack == [] then Some(Resume(s.stack + [l.id], s.times + [l.time], s.res))
      else if s.times == [] then None
      else
        var r := Credit(s.res, Top(s.stack), l.time - Top(s.times));
        if r.None? then None else Some(Resume(s.stack + [l.id], s.times + [l.time], r.value))
    else if s.stack == [] || s.times == [] then None
    else
      var r := Credit(s.res, Top(s.stack), l.time - Top(s.times) + 1);
      var stack, times := Pop(s.stack), Pop(s.times);
      if r.None? then None
      else if stack == [] then Some(Resume(stack, times, r.value))
      else if times == [] then None
      else Some(Resume(stack, times[|times| - 1 := l.time + 1], r.value))
  }

  /** The two states agree: the top resume time is method 2's prev. */
  predicate Agree(a: Resume, b: Prev) {
    a.stack == b.stack && a.res == b.res && |a.times| == |a.stack| &&
    (a.stack != [] ==> Top(a.times) == b.prev)
  }

  lemma ResumeStepAgrees(a: Resume, b: Prev, l: Log)
    requires Agree(a, b)
    ensures ResumeStep(a, l).Some? <==> PrevStep(b, l).Some?
    ensures ResumeStep(a, l).Some? ==> Agree(ResumeStep(a, l).value, PrevStep(b, l).value)
  {
  }

  lemma {:induction false} ResumeRunAgrees(a: Resume, b: Prev, ls: seq<Log>)
    requires Agree(a, b)
    ensures Run(ResumeStep, a, ls).Some? <==> Run(PrevStep, b, ls).Some?
    ensures Run(ResumeStep, a, ls).Some? ==>
      Agree(Run(ResumeStep, a, ls).value, Run(PrevStep, b, ls).value)
    decreases |ls|
  {
    if ls != [] {
      var init := ls[..|ls| - 1];
      ResumeRunAgrees(a, b, init);
      if Run(ResumeStep, a, init).Some? {
        ResumeStepAgrees(Run(ResumeStep, a, init).value, Run(PrevStep, b, init).value, ls[|ls| - 1]);
      }
    }
  }

  /** The body of exclusiveTime3's loop on one parsed log. */
  method ResumeLine(stack: seq<nat>, startTimes: seq<int>, result: seq<int>, l: Log)
    returns (stack': seq<nat>, startTimes': seq<int>, result': seq<int>)
    requires ResumeStep(Resume(stack, startTimes, result), l).Some?
    ensures ResumeStep(Resume(stack, startTimes, result), l) == Some(Resume(stack', startTimes', result'))
  {
    stack', startTimes', result' := stack, startTimes, result;
    if l.kind == Start {
      if stack' != [] {
        var current := stack'[|stack'| - 1];
        result' := result'[current := result'[current] + l.time - startTimes'[|startTimes'| - 1]];
      }
      stack' := stack' + [l.id];
      startTimes' := startTimes' + [l.time];
    } else {
      var current := stack'[|stack'| - 1];
      stack' := stack'[..|stack'| - 1];
      var startTime := startTimes'[|startTimes'| - 1];
      startTimes' := startTimes'[..|startTimes'| - 1];
      result' := result'[current := result'[current] + l.time - startTime + 1];
      if stack' != [] {
        startTimes' := startTimes'[|startTimes'| - 1 := l.time + 1];
      }
    }
  }

  /** Method 3: resume times kept on a second stack. */
  method ExclusiveTime3(n: nat, logs: seq<string>, ghost forest: seq<Call>) returns (result: seq<int>)
    requires WellNested(n, logs, forest)
    ensures |result| == n && forall f :: 0 <= f < n ==> result[f] == ExclOf(f, forest)
  {
    ghost var events := EventsOf(forest);
    ParseAll(logs, events);
    ghost var done := PrevOnForest(n, forest);
    ResumeRunAgrees(Resume([], [], Zeros(n)), Prev([], 0, Zeros(n)), events);
    result := Zeros(n);
    var stack: seq<nat> := [];
    var startTimes: seq<int> := [];
    for i := 0 to |logs|
      invariant Run(ResumeStep, Resume([], [], Zeros(n)), events[..i]) == Some(Resume(stack, startTimes, result))
    {
      RunPrefix(ResumeStep, Resume([], [], Zeros(n)), events, i);
      RunNext(ResumeStep, Resume([], [], Zeros(n)), events, i);
      var l := ParseLog(logs[i]).value;
      stack, startTimes, result := ResumeLine(stack, startTimes, result, l);
    }
    assert events[..|logs|] == events;
  }


  // ---------------------------------------------------------------------
  // Solution 4: credit a call's whole duration, take it back from the caller
  // ---------------------------------------------------------------------

  datatype Frames = Frames(stack: seq<(nat, int)>, res: seq<int>)

  /** The loop body of exclusiveTime4 on one parsed log. */
  function FrameStep(s: Frames, l: Log): Option<Frames> {
    if l.kind == Start then Some(Frames(s.stack + [(l.id, l.time)], s.res))
    else if s.stack == [] then None
    else
      var (f, start) := Top(s.stack);
      var stack := Pop(s.stack);
      var duration := l.time - start + 1;
      var r := Credit(s.res, f, duration);
      if r.None? then None
      else if stack == [] then Some(Frames(stack, r.value))
      else
        var r' := Credit(r.value, Top(stack).0, -duration);
        if r'.None? then None else Some(Frames(stack, r'.value))
  }

  predicate FrameBelow(st: seq<(nat, int)>, n: nat) {
    st != [] ==> Top(st).0 < n
  }

  /** The caller on top of the stack gives back a call's duration. */
  function Given(st: seq<(nat, int)>, f: nat, d: int): int {
    if st != [] && f == Top(st).0 then d else 0
  }

  lemma {:induction false} FrameOnCall(st: seq<(nat, int)>, r: seq<int>, c: Call) returns (t: Frames)
    requires BelowIn(c, |r|) && FrameBelow(st, |r|)
    ensures Run(FrameStep, Frames(st, r), Events(c)) == Some(t)
    ensures t.stack == st && |t.res| == |r|
    ensures forall f :: 0 <= f < |r| ==> t.res[f] == r[f] + ExclIn(f, c) - Given(st, f, Dur(c))
    decreases c
  {
    var s0 := Frames(st, r);
    var first, last := Log(c.id, Start, c.start), Log(c.id, End, c.end);
    var inner := EventsOf(c.calls);
    var s1 := Frames(st + [(c.id, c.start)], r);
    assert FrameStep(s0, first) == Some(s1);
    RunOne(FrameStep, s0, first);
    var s2 := FrameOnCalls(s1.stack, r, c.calls);
    RunAppend(FrameStep, s0, [first], inner);
    assert Top(s2.stack) == (c.id, c.start) && Pop(s2.stack) == st;
    t := FrameStep(s2, last).value;
    RunOne(FrameStep, s2, last);
    RunAppend(FrameStep, s0, [first] + inner, [last]);
    forall f | 0 <= f < |r|
      ensures t.res[f] == r[f] + ExclIn(f, c) - Given(st, f, Dur(c))
    {
      assert t.res[f] == s2.res[f] + (if f == c.id then Dur(c) else 0) - Given(st, f, Dur(c));
      assert s2.res[f] == r[f] + ExclOf(f, c.calls) - Given(s1.stack, f, DurSum(c.calls));
    }
  }

  lemma {:induction false} FrameOnCalls(st: seq<(nat, int)>, r: seq<int>, cs: seq<Call>) returns (t: Frames)
    requires Below(cs, |r|) && FrameBelow(st, |r|)
    ensures Run(FrameStep, Frames(st, r), EventsOf(cs)) == Some(t)
    ensures t.stack == st && |t.res| == |r|
    ensures forall f :: 0 <= f < |r| ==> t.res[f] == r[f] + ExclOf(f, cs) - Given(st, f, DurSum(cs))
    decreases cs
  {
    var s0 := Frames(st, r);
    if cs == [] {
      t := s0;
    } else {
      var s1 := FrameOnCall(st, r, cs[0]);
      t := FrameOnCalls(st, s1.res, cs[1..]);
      RunAppend(FrameStep, s0, Events(cs[0]), EventsOf(cs[1..]));
      assert EventsOf(cs) == Events(cs[0]) + EventsOf(cs[1..]);
      forall f | 0 <= f < |r|
        ensures t.res[f] == r[f] + ExclOf(f, cs) - Given(st, f, DurSum(cs))
      {
        assert t.res[f] == s1.res[f] + ExclOf(f, cs[1..]) - Given(st, f, DurSum(cs[1..]));
        assert s1.res[f] == r[f] + ExclIn(f, cs[0]) - Given(st, f, Dur(cs[0]));
      }
    }
  }

  /** The body of exclusiveTime4's loop on one parsed log. */
  method FrameLine(stack: seq<(nat, int)>, result: seq<int>, l: Log)
    returns (stack': seq<(nat, int)>, result': seq<int>)
    requires FrameStep(Frames(stack, result), l).Some?
    ensures FrameStep(Frames(stack, result), l) == Some(Frames(stack', result'))
  {
    stack', result' := stack, result;
    if l.kind == Start {
      stack' := stack' + [(l.id, l.time)];
    } else {
      var (f, startTime) := stack'[|stack'| - 1];
      stack' := stack'[..|stack'| - 1];
      var duration := l.time - startTime + 1;
      result' := result'[f := result'[f] + duration];
      if stack' != [] {
        result' := result'[stack'[|stack'| - 1].0 := result'[stack'[|stack'| - 1].0] - duration];
      }
    }
  }

  /** Method 4: credit each call's whole duration and take it back from its caller. */
  method ExclusiveTime4(n: nat, logs: seq<string>, ghost forest: seq<Call>) returns (result: seq<int>)
    requires WellNested(n, logs, forest)
    ensures |result| == n && forall f :: 0 <= f < n ==> result[f] == ExclOf(f, forest)
  {
    ghost var events := EventsOf(forest);
    ParseAll(logs, events);
    ghost var done := FrameOnCalls([], Zeros(n), forest);
    result := Zeros(n);
    var stack: seq<(nat, int)> := [];
    for i := 0 to |logs|
      invariant Run(FrameStep, Frames([], Zeros(n)), events[..i]) == Some(Frames(stack, result))
    {
      RunPrefix(FrameStep, Frames([], Zeros(n)), events, i);
      RunNext(FrameStep, Frames([], Zeros(n)), events, i);
      var l := ParseLog(logs[i]).value;
      stack, result := FrameLine(stack, result, l);
    }
    assert events[..|logs|] == events;
  }


  // ---------------------------------------------------------------------
  // Solution 1: push every log line; an end line pops itself and its start
  // ---------------------------------------------------------------------

  datatype Lines = Lines(stack: seq<string>, res: seq<int>)

  /** The loop body of exclusiveTime on one log line. */
  function LineStep(s: Lines, item: string): Option<Lines> {
    var stack := s.stack + [item];
    if !HasEnd(item) then Some(Lines(stack, s.res))
    else if |stack| < 2 then None
    else
      var y, x, f := Field(stack[|stack| - 1], 2), Field(stack[|stack| - 2], 2), Field(item, 0);
      var rest := stack[..|stack| - 2];
      if y.None? || x.None? || f.None? then None
      else
        var timeSpent := y.value - x.value + 1;
        var r := Credit(s.res, f.value, timeSpent);
        if r.None? then None
        else if rest == [] then Some(Lines(rest, r.value))
        else
          var p := Field(Top(rest), 0);
          if p.None? then None
          else
            var r' := Credit(r.value, p.value, -timeSpent);
            if r'.None? then None else Some(Lines(rest, r'.value))
  }

  /** The top line, if any, names a function below n. */
  predicate LineBelow(st: seq<string>, n: nat) {
    st != [] ==> Field(Top(st), 0).Some? && Field(Top(st), 0).value < n
  }

  /** The caller whose start line is on top gives back a call's duration. */
  function Charged(st: seq<string>, f: nat, d: int): int {
    if st != [] && Field(Top(st), 0) == Some(f) then d else 0
  }

  /** A start line is pushed and credits nothing. */
  lemma LineOnStart(st: seq<string>, r: seq<int>, l: Log)
    requires l.kind == Start
    ensures LineStep(Lines(st, r), Format(l)) == Some(Lines(st + [Format(l)], r))
  {
    EndInFormat(l);
  }

  /**
   * An end line pops itself and the start line of its call, credits the
   * call's duration to its function and takes it back from the caller.
   */
  lemma LineOnEnd(st: seq<string>, r: seq<int>, id: nat, start: nat, end: nat) returns (t: Lines)
    requires id < |r| && LineBelow(st, |r|)
    ensures LineStep(Lines(st + [Format(Log(id, Start, start))], r), Format(Log(id, End, end))) == Some(t)
    ensures t.stack == st && |t.res| == |r|
    ensures forall f :: 0 <= f < |r| ==>
      t.res[f] == r[f] + (if f == id then end - start + 1 else 0) - Charged(st, f, end - start + 1)
  {
    var a, z := Format(Log(id, Start, start)), Format(Log(id, End, end));
    ParseFormat(Log(id, Start, start));
    ParseFormat(Log(id, End, end));
    EndInFormat(Log(id, End, end));
    var stack := st + [a] + [z];
    assert stack[..|stack| - 2] == st;
    assert stack[|stack| - 2] == a && stack[|stack| - 1] == z;
    t := LineStep(Lines(st + [a], r), z).value;
  }

  lemma {:induction false} LineOnCall(st: seq<string>, r: seq<int>, c: Call) returns (t: Lines)
    requires BelowIn(c, |r|) && LineBelow(st, |r|)
    ensures Run(LineStep, Lines(st, r), Formatted(Events(c))) == Some(t)
    ensures t.stack == st && |t.res| == |r|
    ensures forall f :: 0 <= f < |r| ==> t.res[f] == r[f] + ExclIn(f, c) - Charged(st, f, Dur(c))
    decreases c
  {
    var s0 := Lines(st, r);
    var first, last := Log(c.id, Start, c.start), Log(c.id, End, c.end);
    var a, z := Format(first), Format(last);
    var inner := Formatted(EventsOf(c.calls));
    var s1 := Lines(st + [a], r);
    LineOnStart(st, r, first);
    RunOne(LineStep, s0, a);
    ParseFormat(first);
    assert Top(s1.stack) == a;
    var s2 := LineOnCalls(s1.stack, r, c.calls);
    RunAppend(LineStep, s0, [a], inner);
    t := LineOnEnd(st, s2.res, c.id, c.start, c.end);
    RunOne(LineStep, s2, z);
    RunAppend(LineStep, s0, [a] + inner, [z]);
    FormattedAppend([first] + EventsOf(c.calls), [last]);
    FormattedAppend([first], EventsOf(c.calls));
    assert Formatted([first]) == [a];
    assert Formatted([last]) == [z];
    forall f | 0 <= f < |r|
      ensures t.res[f] == r[f] + ExclIn(f, c) - Charged(st, f, Dur(c))
    {
      assert s2.res[f] == r[f] + ExclOf(f, c.calls) - Charged(s1.stack, f, DurSum(c.calls));
    }
  }

  lemma {:induction false} LineOnCalls(st: seq<string>, r: seq<int>, cs: seq<Call>) returns (t: Lines)
    requires Below(cs, |r|) && LineBelow(st, |r|)
    ensures Run(LineStep, Lines(st, r), Formatted(EventsOf(cs))) == Some(t)
    ensures t.stack == st && |t.res| == |r|
    ensures forall f :: 0 <= f < |r| ==> t.res[f] == r[f] + ExclOf(f, cs) - Charged(st, f, DurSum(cs))
    decreases cs
  {
    var s0 := Lines(st, r);
    if cs == [] {
      t := s0;
    } else {
      var s1 := LineOnCall(st, r, cs[0]);
      t := LineOnCalls(st, s1.res, cs[1..]);
      assert EventsOf(cs) == Events(cs[0]) + EventsOf(cs[1..]);
      FormattedAppend(Events(cs[0]), EventsOf(cs[1..]));
      RunAppend(LineStep, s0, Formatted(Events(cs[0])), Formatted(EventsOf(cs[1..])));
      forall f | 0 <= f < |r|
        ensures t.res[f] == r[f] + ExclOf(f, cs) - Charged(st, f, DurSum(cs))
      {
        assert t.res[f] == s1.res[f] + ExclOf(f, cs[1..]) - Charged(st, f, DurSum(cs[1..]));
        assert s1.res[f] == r[f] + ExclIn(f, cs[0]) - Charged(st, f, Dur(cs[0]));
      }
    }
  }

  lemma {:induction false} FormattedAppend(a: seq<Log>, b: seq<Log>)
    ensures Formatted(a + b) == Formatted(a) + Formatted(b)
    decreases |a|
  {
    if a != [] {
      assert (a + b)[1..] == a[1..] + b;
      FormattedAppend(a[1..], b);
    } else {
      assert a + b == b;
    }
  }

  /** The body of exclusiveTime's loop on one log line. */
  method LineBody(stack: seq<string>, result: seq<int>, item: string)
    returns (stack': seq<string>, result': seq<int>)
    requires LineStep(Lines(stack, result), item).Some?
    ensures LineStep(Lines(stack, result), item) == Some(Lines(stack', result'))
  {
    stack' := stack + [item];
    result' := result;
    if HasEnd(item) {
      var full := stack';
      var y := Field(full[|full| - 1], 2).value;
      var x := Field(full[|full| - 2], 2).value;
      stack' := full[..|full| - 2];
      var funcId := Field(item, 0).value;
      var timeSpent := (y as int) - x + 1;
      result' := result'[funcId := result'[funcId] + timeSpent];
      if stack' != [] {
        var p := Field(stack'[|stack'| - 1], 0).value;
        result' := result'[p := result'[p] - timeSpent];
      }
    }
  }

  /** Method 1: pair each end line with the start line beneath it on the stack. */
  method ExclusiveTime1(n: nat, logs: seq<string>, ghost forest: seq<Call>) returns (result: seq<int>)
    requires WellNested(n, logs, forest)
    ensures |result| == n && forall f :: 0 <= f < n ==> result[f] == ExclOf(f, forest)
  {
    ghost var done := LineOnCalls([], Zeros(n), forest);
    result := Zeros(n);
    var stack: seq<string> := [];
    for i := 0 to |logs|
      invariant Run(LineStep, Lines([], Zeros(n)), logs[..i]) == Some(Lines(stack, result))
    {
      RunPrefix(LineStep, Lines([], Zeros(n)), logs, i);
      RunNext(LineStep, Lines([], Zeros(n)), logs, i);
      stack, result := LineBody(stack, result, logs[i]);
    }
    assert logs[..|logs|] == logs;
  }

}
