/** The span table as a value: `spans[0..spanCount)` as a sequence, the counts the source keeps or
    recomputes over it, and the in-place passes (marking, compaction, forced ending) as functions
    of the table before the pass. */
module Arena {
  import opened Types

  /** Eligible for a trace payload (lines 192, 208, 271, 723, 813, 831, 943). */
  predicate IsCompleted(s: Span) { !s.isActive && s.endTimeNanos > 0 }

  /** Removed by removeMarkedSpans (line 389). */
  predicate IsMarked(s: Span) { !s.isActive && s.endTimeNanos == 1 }

  /** Every span holds at most MAX_SPAN_ATTRS attributes (`attributes[MAX_SPAN_ATTRS]`). */
  predicate Bounded(ss: seq<Span>) {
    |ss| == 0 || (Bounded(ss[..|ss| - 1]) && |ss[|ss| - 1].attributes| <= MAX_SPAN_ATTRS)
  }

  lemma {:induction false} BoundedAt(ss: seq<Span>, k: nat)
    requires Bounded(ss) && k < |ss|
    ensures |ss[k].attributes| <= MAX_SPAN_ATTRS
  {
    if k < |ss| - 1 {
      BoundedAt(ss[..|ss| - 1], k);
    }
  }

  lemma {:induction false} BoundedIntro(ss: seq<Span>)
    requires forall k :: 0 <= k < |ss| ==> |ss[k].attributes| <= MAX_SPAN_ATTRS
    ensures Bounded(ss)
  {
    if ss != [] {
      BoundedIntro(ss[..|ss| - 1]);
    }
  }

  /** Two tables that agree entry by entry on the attributes are bounded together. */
  lemma SameAttrsBounded(ss: seq<Span>, r: seq<Span>)
    requires Bounded(ss) && |r| == |ss|
    requires forall k :: 0 <= k < |r| ==> r[k].attributes == ss[k].attributes
    ensures Bounded(r)
  {
    forall k | 0 <= k < |r| ensures |r[k].attributes| <= MAX_SPAN_ATTRS {
      BoundedAt(ss, k);
    }
    BoundedIntro(r);
  }

  function CountActive(ss: seq<Span>): (c: nat)
    ensures c <= |ss|
  {
    if |ss| == 0 then 0 else CountActive(ss[..|ss| - 1]) + (if ss[|ss| - 1].isActive then 1 else 0)
  }

  function CountInactive(ss: seq<Span>): (c: nat)
    ensures c + CountActive(ss) == |ss|
  {
    if |ss| == 0 then 0 else CountInactive(ss[..|ss| - 1]) + (if ss[|ss| - 1].isActive then 0 else 1)
  }

  function CountCompleted(ss: seq<Span>): (c: nat)
    ensures c <= CountInactive(ss)
  {
    if |ss| == 0 then 0 else CountCompleted(ss[..|ss| - 1]) + (if IsCompleted(ss[|ss| - 1]) then 1 else 0)
  }

  /** The attributes held by completed spans (lines 206-211). */
  function TotalAttrs(ss: seq<Span>): nat {
    if |ss| == 0 then 0
    else TotalAttrs(ss[..|ss| - 1]) + (if IsCompleted(ss[|ss| - 1]) then |ss[|ss| - 1].attributes| else 0)
  }

  lemma {:induction false} TotalAttrsBounded(ss: seq<Span>)
    requires Bounded(ss)
    ensures TotalAttrs(ss) <= MAX_SPAN_ATTRS * CountCompleted(ss)
  {
    if ss != [] {
      TotalAttrsBounded(ss[..|ss| - 1]);
    }
  }

  /** How the counts over a prefix grow by one element. */
  lemma CountsStep(ss: seq<Span>, k: nat)
    requires k < |ss|
    ensures CountActive(ss[..k + 1]) == CountActive(ss[..k]) + (if ss[k].isActive then 1 else 0)
    ensures CountInactive(ss[..k + 1]) == CountInactive(ss[..k]) + (if ss[k].isActive then 0 else 1)
    ensures CountCompleted(ss[..k + 1]) == CountCompleted(ss[..k]) + (if IsCompleted(ss[k]) then 1 else 0)
    ensures TotalAttrs(ss[..k + 1]) == TotalAttrs(ss[..k]) + (if IsCompleted(ss[k]) then |ss[k].attributes| else 0)
  {
    assert ss[..k + 1][..k] == ss[..k];
  }

  lemma {:induction false} CountsGrow(ss: seq<Span>, i: nat, j: nat)
    requires i <= j <= |ss|
    ensures CountActive(ss[..i]) <= CountActive(ss[..j])
    ensures CountCompleted(ss[..i]) <= CountCompleted(ss[..j])
  {
    if i < j {
      CountsGrow(ss, i, j - 1);
      CountsStep(ss, j - 1);
      assert CountActive(ss[..j - 1]) <= CountActive(ss[..j]);
      assert CountCompleted(ss[..j - 1]) <= CountCompleted(ss[..j]);
    }
  }

  /** An earlier completed (active) span is counted strictly before a later index. */
  lemma CountsBefore(ss: seq<Span>, k: nat, i: nat)
    requires k < i <= |ss|
    ensures IsCompleted(ss[k]) ==> CountCompleted(ss[..k]) < CountCompleted(ss[..i])
    ensures ss[k].isActive ==> CountActive(ss[..k]) < CountActive(ss[..i])
  {
    CountsStep(ss, k);
    CountsGrow(ss, k + 1, i);
  }

  /** The first n completed spans, in table order (the selection of createTracePayload). */
  function Picks(ss: seq<Span>, n: nat): (ps: seq<Span>)
    ensures |ps| == Min(n, CountCompleted(ss))
    ensures forall k :: 0 <= k < |ps| ==> IsCompleted(ps[k])
  {
    if |ss| == 0 then []
    else
      var init := ss[..|ss| - 1];
      var last := ss[|ss| - 1];
      Picks(init, n) + (if IsCompleted(last) && CountCompleted(init) < n then [last] else [])
  }

  /** Every pick is a completed entry of the table. */
  lemma {:induction false} PicksFromTable(ss: seq<Span>, n: nat)
    ensures forall s :: s in Picks(ss, n) ==> s in ss && IsCompleted(s)
  {
    if |ss| > 0 {
      var init := ss[..|ss| - 1];
      PicksFromTable(init, n);
      forall s | s in Picks(ss, n) ensures s in ss && IsCompleted(s) {
        if s in Picks(init, n) {
          assert s in init;
        }
      }
    }
  }

  /** The picks of a prefix are a prefix of the picks. */
  lemma {:induction false} PicksPrefix(ss: seq<Span>, i: nat, n: nat)
    requires i <= |ss|
    ensures Min(n, CountCompleted(ss[..i])) <= |Picks(ss, n)|
    ensures Picks(ss[..i], n) == Picks(ss, n)[..Min(n, CountCompleted(ss[..i]))]
  {
    assert ss[..|ss|] == ss;
    CountsGrow(ss, i, |ss|);
    if i < |ss| {
      var init := ss[..|ss| - 1];
      assert init[..i] == ss[..i];
      PicksPrefix(init, i, n);
      CountsGrow(init, i, |init|);
      assert init[..|init|] == init;
    } else {
      assert ss[..i] == ss;
    }
  }

  lemma PicksStep(ss: seq<Span>, i: nat, n: nat)
    requires i < |ss|
    ensures Picks(ss[..i + 1], n)
         == Picks(ss[..i], n) + (if IsCompleted(ss[i]) && CountCompleted(ss[..i]) < n then [ss[i]] else [])
  {
    assert ss[..i + 1][..i] == ss[..i];
  }

  /** Once n completed spans have been seen, the rest of the table adds no pick. */
  lemma PicksSaturated(ss: seq<Span>, i: nat, n: nat)
    requires i <= |ss|
    requires CountCompleted(ss[..i]) >= n
    ensures Picks(ss, n) == Picks(ss[..i], n)
  {
    PicksPrefix(ss, i, n);
    assert ss[..|ss|] == ss;
    CountsGrow(ss, i, |ss|);
  }

  /** Lines 270-354: the first n completed spans get the removal marker `endTimeNanos = 1`. */
  function MarkSent(ss: seq<Span>, n: nat): (r: seq<Span>)
    ensures |r| == |ss|
    ensures forall k :: 0 <= k < |r| ==>
      r[k] == ss[k] || (IsCompleted(ss[k]) && r[k] == ss[k].(endTimeNanos := 1))
  {
    seq(|ss|, k requires 0 <= k < |ss| =>
      if IsCompleted(ss[k]) && CountCompleted(ss[..k]) < n then ss[k].(endTimeNanos := 1) else ss[k])
  }

  /** Lines 811-824: the first n completed spans get `spanId = 0`. */
  function ClearIds(ss: seq<Span>, n: nat): (r: seq<Span>)
    ensures |r| == |ss|
    ensures forall k :: 0 <= k < |r| ==> r[k] == ss[k].(spanId := r[k].spanId)
  {
    seq(|ss|, k requires 0 <= k < |ss| =>
      if IsCompleted(ss[k]) && CountCompleted(ss[..k]) < n then ss[k].(spanId := 0) else ss[k])
  }

  /** Lines 453-465: the first n active spans are ended at time `now`. */
  function ForceEnd(ss: seq<Span>, n: nat, now: u64): (r: seq<Span>)
    ensures |r| == |ss|
    ensures forall k :: 0 <= k < |r| ==>
      r[k] == ss[k] || (ss[k].isActive && r[k] == ss[k].(isActive := false, endTimeNanos := now))
  {
    seq(|ss|, k requires 0 <= k < |ss| =>
      if ss[k].isActive && CountActive(ss[..k]) < n then ss[k].(isActive := false, endTimeNanos := now) else ss[k])
  }

  /** removeMarkedSpans: keeps, in order, every span that is active or not marked. */
  function RemoveMarked(ss: seq<Span>): (r: seq<Span>)
    ensures |r| <= |ss|
  {
    if |ss| == 0 then []
    else RemoveMarked(ss[..|ss| - 1]) + (if IsMarked(ss[|ss| - 1]) then [] else [ss[|ss| - 1]])
  }

  /** Lines 432-444: keeps, in order, the active spans. */
  function KeepActive(ss: seq<Span>): (r: seq<Span>)
    ensures |r| == CountActive(ss)
  {
    if |ss| == 0 then []
    else KeepActive(ss[..|ss| - 1]) + (if ss[|ss| - 1].isActive then [ss[|ss| - 1]] else [])
  }

  /** Compaction keeps exactly the unmarked spans. */
  lemma {:induction false} RemoveMarkedMembers(ss: seq<Span>)
    ensures forall s :: s in RemoveMarked(ss) <==> s in ss && !IsMarked(s)
  {
    if ss != [] {
      var init := ss[..|ss| - 1];
      RemoveMarkedMembers(init);
      assert ss == init + [ss[|ss| - 1]];
    }
  }

  /** Dropping the inactive spans keeps exactly the active ones. */
  lemma {:induction false} KeepActiveMembers(ss: seq<Span>)
    ensures forall s :: s in KeepActive(ss) <==> s in ss && s.isActive
  {
    if ss != [] {
      var init := ss[..|ss| - 1];
      KeepActiveMembers(init);
      assert ss == init + [ss[|ss| - 1]];
    }
  }

  lemma {:induction false} RemoveMarkedBounded(ss: seq<Span>)
    requires Bounded(ss)
    ensures Bounded(RemoveMarked(ss))
  {
    if ss != [] {
      var init := ss[..|ss| - 1];
      var r := RemoveMarked(init);
      RemoveMarkedBounded(init);
      if !IsMarked(ss[|ss| - 1]) {
        var rl := r + [ss[|ss| - 1]];
        assert RemoveMarked(ss) == rl;
        assert rl[..|rl| - 1] == r;
      } else {
        assert RemoveMarked(ss) == r;
      }
    }
  }

  lemma {:induction false} KeepActiveBounded(ss: seq<Span>)
    requires Bounded(ss)
    ensures Bounded(KeepActive(ss))
  {
    if ss != [] {
      var init := ss[..|ss| - 1];
      var r := KeepActive(init);
      KeepActiveBounded(init);
      if ss[|ss| - 1].isActive {
        var rl := r + [ss[|ss| - 1]];
        assert KeepActive(ss) == rl;
        assert rl[..|rl| - 1] == r;
      } else {
        assert KeepActive(ss) == r;
      }
    }
  }

  /** Two tables that agree on which entries are active, and on every active entry, have the
      same active spans in the same order. */
  lemma {:induction false} SameActives(x: seq<Span>, y: seq<Span>)
    requires |x| == |y|
    requires forall k :: 0 <= k < |x| ==> x[k].isActive == y[k].isActive
    requires forall k :: 0 <= k < |x| && x[k].isActive ==> x[k] == y[k]
    ensures KeepActive(x) == KeepActive(y)
  {
    if x != [] {
      SameActives(x[..|x| - 1], y[..|y| - 1]);
    }
  }

  lemma MarkSentKeepsActives(ss: seq<Span>, n: nat)
    ensures KeepActive(MarkSent(ss, n)) == KeepActive(ss)
  {
    SameActives(ss, MarkSent(ss, n));
  }

  lemma ClearIdsKeepsActives(ss: seq<Span>, n: nat)
    ensures KeepActive(ClearIds(ss, n)) == KeepActive(ss)
  {
    SameActives(ss, ClearIds(ss, n));
  }

  /** Compaction never drops an active span nor reorders the active ones. */
  lemma {:induction false} RemoveMarkedKeepsActives(ss: seq<Span>)
    ensures KeepActive(RemoveMarked(ss)) == KeepActive(ss)
  {
    if ss != [] {
      var init := ss[..|ss| - 1];
      var last := ss[|ss| - 1];
      RemoveMarkedKeepsActives(init);
      var r := RemoveMarked(init);
      assert KeepActive(ss) == KeepActive(init) + (if last.isActive then [last] else []);
      if IsMarked(last) {
        assert RemoveMarked(ss) == r;
      } else {
        var rl := r + [last];
        assert RemoveMarked(ss) == rl;
        assert rl[..|rl| - 1] == r;
        assert KeepActive(rl) == KeepActive(r) + (if last.isActive then [last] else []);
      }
    }
  }

  /** A marked entry makes compaction shrink the table. */
  lemma {:induction false} RemoveMarkedShrinks(ss: seq<Span>, k: nat)
    requires k < |ss| && IsMarked(ss[k])
    ensures |RemoveMarked(ss)| < |ss|
  {
    if k < |ss| - 1 {
      RemoveMarkedShrinks(ss[..|ss| - 1], k);
    }
  }

  lemma {:induction false} FirstCompleted(ss: seq<Span>) returns (k: nat)
    requires CountCompleted(ss) > 0
    ensures k < |ss| && IsCompleted(ss[k]) && CountCompleted(ss[..k]) == 0
  {
    var init := ss[..|ss| - 1];
    if CountCompleted(init) > 0 {
      k := FirstCompleted(init);
      assert init[..k] == ss[..k];
    } else {
      k := |ss| - 1;
      assert ss[..k] == init;
    }
  }

  /** A successful trace round (mark the first n >= 1 completed spans, clear ids, compact)
      removes at least one span: the measure of the resend recursion at line 833. */
  lemma RoundShrinks(ss: seq<Span>, n: nat, m: nat)
    requires CountCompleted(ss) > 0 && n >= 1
    ensures |RemoveMarked(ClearIds(MarkSent(ss, n), m))| < |ss|
  {
    var k := FirstCompleted(ss);
    var marked := MarkSent(ss, n);
    assert IsMarked(marked[k]);
    var cleared := ClearIds(marked, m);
    assert cleared[k] == marked[k].(spanId := cleared[k].spanId);
    RemoveMarkedShrinks(cleared, k);
  }

  lemma ForceEndPrefix(ss: seq<Span>, n: nat, now: u64, i: nat)
    requires i <= |ss|
    ensures ForceEnd(ss, n, now)[..i] == ForceEnd(ss[..i], n, now)
  {
    forall k | 0 <= k < i
      ensures ForceEnd(ss, n, now)[k] == ForceEnd(ss[..i], n, now)[k]
    {
      assert ss[..i][..k] == ss[..k];
    }
  }

  /** Forced ending makes exactly min(n, active) spans inactive. */
  lemma {:induction false} ForceEndActiveCount(ss: seq<Span>, n: nat, now: u64)
    ensures CountActive(ForceEnd(ss, n, now)) == CountActive(ss) - Min(n, CountActive(ss))
  {
    if ss != [] {
      var init := ss[..|ss| - 1];
      var r := ForceEnd(ss, n, now);
      ForceEndPrefix(ss, n, now, |init|);
      ForceEndActiveCount(init, n, now);
      assert r[..|r| - 1] == ForceEnd(init, n, now);
    }
  }

  lemma ForceEndKeepsBound(ss: seq<Span>, n: nat, now: u64)
    ensures Bounded(ss) ==> Bounded(ForceEnd(ss, n, now))
  {
    if Bounded(ss) {
      SameAttrsBounded(ss, ForceEnd(ss, n, now));
    }
  }

  lemma MarksKeepBound(ss: seq<Span>, n: nat, m: nat)
    requires Bounded(ss)
    ensures Bounded(MarkSent(ss, n)) && Bounded(ClearIds(MarkSent(ss, n), m))
  {
    SameAttrsBounded(ss, MarkSent(ss, n));
    SameAttrsBounded(MarkSent(ss, n), ClearIds(MarkSent(ss, n), m));
  }

  /** With no inactive entry, dropping the inactive spans changes nothing. */
  lemma {:induction false} KeepActiveAllActive(ss: seq<Span>)
    requires CountInactive(ss) == 0
    ensures KeepActive(ss) == ss
  {
    if ss != [] {
      var init := ss[..|ss| - 1];
      KeepActiveAllActive(init);
      assert KeepActive(ss) == init + [ss[|ss| - 1]];
      assert ss == init + [ss[|ss| - 1]];
    }
  }

  /** Every span left by KeepActive is active. */
  lemma {:induction false} KeepActiveOnlyActive(ss: seq<Span>)
    ensures CountInactive(KeepActive(ss)) == 0
  {
    if ss != [] {
      var init := ss[..|ss| - 1];
      var r := KeepActive(init);
      KeepActiveOnlyActive(init);
      if ss[|ss| - 1].isActive {
        var rl := r + [ss[|ss| - 1]];
        assert KeepActive(ss) == rl;
        assert rl[..|rl| - 1] == r;
        assert CountInactive(rl) == CountInactive(r);
      } else {
        assert KeepActive(ss) == r;
      }
    }
  }

  /** The entry startSpan writes (lines 552-562): the name cut to MAX_SPAN_NAME characters, the
      current trace id, no end time, no attributes, active. */
  function NewSpan(name: string, traceId: TraceId, spanId: u64, parentSpanId: u64, now: u64): (s: Span)
    ensures |s.name| <= MAX_SPAN_NAME && |s.name| <= |name| && s.name == name[..|s.name|]
    ensures |name| <= MAX_SPAN_NAME ==> s.name == name
    ensures s.isActive && s.endTimeNanos == 0 && s.attributes == []
    ensures s.traceId == traceId && s.spanId == spanId && s.parentSpanId == parentSpanId && s.startTimeNanos == now
  {
    Span(name[..Min(|name|, MAX_SPAN_NAME)], traceId, spanId, parentSpanId, now, 0, [], true)
  }

  /** The loop of addSpanAttribute and endSpan: the first entry with the given id. */
  function FindFirst(ss: seq<Span>, id: u64): (r: Option<nat>)
    ensures r.Some? ==> r.value < |ss| && ss[r.value].spanId == id
    ensures r.Some? ==> forall k :: 0 <= k < r.value ==> ss[k].spanId != id
    ensures r.None? <==> forall k :: 0 <= k < |ss| ==> ss[k].spanId != id
  {
    if |ss| == 0 then None
    else if ss[0].spanId == id then Some(0)
    else
      match FindFirst(ss[1..], id)
      case None => assert forall k :: 1 <= k < |ss| ==> ss[k] == ss[1..][k - 1]; None
      case Some(k) => assert forall j :: 1 <= j < k + 1 ==> ss[j] == ss[1..][j - 1]; Some(k + 1)
  }

  /** Replacing one entry changes the active count by the change in that entry. */
  lemma {:induction false} CountActiveUpdate(ss: seq<Span>, i: nat, x: Span)
    requires i < |ss|
    ensures CountActive(ss[i := x])
         == CountActive(ss) - (if ss[i].isActive then 1 else 0) + (if x.isActive then 1 else 0)
  {
    var t := ss[i := x];
    if i < |ss| - 1 {
      assert t[..|t| - 1] == ss[..|ss| - 1][i := x];
      CountActiveUpdate(ss[..|ss| - 1], i, x);
    } else {
      assert t[..|t| - 1] == ss[..|ss| - 1];
    }
  }

  lemma BoundedUpdate(ss: seq<Span>, i: nat, x: Span)
    requires Bounded(ss) && i < |ss| && |x.attributes| <= MAX_SPAN_ATTRS
    ensures Bounded(ss[i := x])
  {
    var t := ss[i := x];
    forall k | 0 <= k < |t| ensures |t[k].attributes| <= MAX_SPAN_ATTRS {
      if k != i { BoundedAt(ss, k); }
    }
    BoundedIntro(t);
  }

  lemma BoundedSnoc(ss: seq<Span>, x: Span)
    requires Bounded(ss) && |x.attributes| <= MAX_SPAN_ATTRS
    ensures Bounded(ss + [x])
  {
    assert (ss + [x])[..|ss|] == ss;
  }

  lemma CountActiveSnoc(ss: seq<Span>, x: Span)
    ensures CountActive(ss + [x]) == CountActive(ss) + (if x.isActive then 1 else 0)
  {
    assert (ss + [x])[..|ss|] == ss;
  }

  /** Stamping no span changes nothing. */
  lemma MarkSentZero(ss: seq<Span>)
    ensures MarkSent(ss, 0) == ss
  {
  }

  /** The completed count at an index orders the completed spans: the rank used by the stamping
      passes. */
  lemma CompletedRanks(ss: seq<Span>, i: nat, k: nat)
    requires i < |ss| && k < |ss| && IsCompleted(ss[i])
    ensures k < i && IsCompleted(ss[k]) ==> CountCompleted(ss[..k]) < CountCompleted(ss[..i])
    ensures i < k ==> CountCompleted(ss[..i]) + 1 <= CountCompleted(ss[..k])
  {
    if k < i {
      CountsBefore(ss, k, i);
    } else if i < k {
      CountsBefore(ss, i, k);
    }
  }

  /** The stamping loop of createTracePayload: having stamped the completed spans before index i,
      stamping the completed span at i extends MarkSent by one. */
  lemma MarkSentStep(ss: seq<Span>, i: nat)
    requires i < |ss| && IsCompleted(ss[i])
    ensures MarkSent(ss, CountCompleted(ss[..i]) + 1)
         == MarkSent(ss, CountCompleted(ss[..i]))[i := ss[i].(endTimeNanos := 1)]
  {
    var c := CountCompleted(ss[..i]);
    var before := MarkSent(ss, c);
    var after := MarkSent(ss, c + 1);
    forall k | 0 <= k < |ss| && k != i
      ensures after[k] == before[k]
    {
      CompletedRanks(ss, i, k);
    }
    assert after == before[i := ss[i].(endTimeNanos := 1)];
  }


  /** A completed entry met by the selection loop of createTracePayload (lines 290-354) while
      fewer than n spans are written is the next of the first n completed spans. */
  lemma PickNext(ss: seq<Span>, i: nat, n: nat)
    requires i < |ss| && IsCompleted(ss[i]) && CountCompleted(ss[..i]) < n
    ensures CountCompleted(ss[..i + 1]) == CountCompleted(ss[..i]) + 1
    ensures CountCompleted(ss[..i]) < |Picks(ss, n)| && Picks(ss, n)[CountCompleted(ss[..i])] == ss[i]
  {
    var c := CountCompleted(ss[..i]);
    CountsStep(ss, i);
    PicksStep(ss, i, n);
    PicksPrefix(ss, i + 1, n);
    var before := Picks(ss[..i], n);
    var after := Picks(ss[..i + 1], n);
    assert |before| == c;
    assert after == before + [ss[i]];
    assert after == Picks(ss, n)[..c + 1];
    assert after[c] == ss[i];
  }

  /** The selection loop has written every pick once it has passed the whole table or written n
      spans. */
  lemma PicksDone(ss: seq<Span>, i: nat, n: nat)
    requires i <= |ss| && CountCompleted(ss[..i]) <= n
    requires i == |ss| || CountCompleted(ss[..i]) == n
    ensures CountCompleted(ss[..i]) == |Picks(ss, n)|
  {
    assert ss[..|ss|] == ss;
    CountsGrow(ss, i, |ss|);
  }

  /** The id-clearing loop of sendTraces, likewise. */
  lemma ClearIdsStep(ss: seq<Span>, i: nat)
    requires i < |ss| && IsCompleted(ss[i])
    ensures ClearIds(ss, CountCompleted(ss[..i]) + 1)
         == ClearIds(ss, CountCompleted(ss[..i]))[i := ss[i].(spanId := 0)]
  {
    var c := CountCompleted(ss[..i]);
    var before := ClearIds(ss, c);
    var after := ClearIds(ss, c + 1);
    forall k | 0 <= k < |ss| && k != i
      ensures after[k] == before[k]
    {
      CompletedRanks(ss, i, k);
    }
    assert after == before[i := ss[i].(spanId := 0)];
  }


  /** A non-completed entry is never stamped, whatever the count. */
  lemma MarksSkip(ss: seq<Span>, i: nat, c: nat)
    requires i < |ss| && !IsCompleted(ss[i])
    ensures MarkSent(ss, c)[i] == ss[i] && ClearIds(ss, c)[i] == ss[i]
  {
  }

  /** Once every completed span is covered, a larger count stamps nothing more. */
  lemma MarksSaturate(ss: seq<Span>, m: nat)
    requires m >= CountCompleted(ss)
    ensures MarkSent(ss, m) == MarkSent(ss, CountCompleted(ss))
    ensures ClearIds(ss, m) == ClearIds(ss, CountCompleted(ss))
  {
    forall k | 0 <= k < |ss| && IsCompleted(ss[k])
      ensures CountCompleted(ss[..k]) < CountCompleted(ss)
    {
      assert ss[..|ss|] == ss;
      CountsBefore(ss, k, |ss|);
    }
  }

  /** Stamping the first c completed spans, where c is the count before index i, leaves index i
      and everything after it untouched. */
  lemma MarksBeyond(ss: seq<Span>, i: nat, k: nat)
    requires i <= k < |ss|
    ensures MarkSent(ss, CountCompleted(ss[..i]))[k] == ss[k]
    ensures ClearIds(ss, CountCompleted(ss[..i]))[k] == ss[k]
  {
    CountsGrow(ss, i, k);
  }

  /** The compaction loops of removeMarkedSpans and cleanupOldSpans: one more entry of the
      table adds at most that entry to what is kept. */
  lemma RemoveMarkedStep(ss: seq<Span>, i: nat)
    requires i < |ss|
    ensures RemoveMarked(ss[..i + 1]) == RemoveMarked(ss[..i]) + (if IsMarked(ss[i]) then [] else [ss[i]])
  {
    assert ss[..i + 1][..i] == ss[..i];
  }

  lemma KeepActiveStep(ss: seq<Span>, i: nat)
    requires i < |ss|
    ensures KeepActive(ss[..i + 1]) == KeepActive(ss[..i]) + (if ss[i].isActive then [ss[i]] else [])
  {
    assert ss[..i + 1][..i] == ss[..i];
  }

  /** Neither compaction changes the number of active spans. */
  lemma CompactionCounts(ss: seq<Span>)
    ensures CountActive(RemoveMarked(ss)) == CountActive(ss)
    ensures CountActive(KeepActive(ss)) == CountActive(ss)
  {
    RemoveMarkedKeepsActives(ss);
    KeepActiveOnlyActive(ss);
  }

  /** The forcing loop of cleanupOldSpans: having ended the active spans before index i, ending
      the active span at i extends ForceEnd by one. */
  lemma ForceEndStep(ss: seq<Span>, i: nat, now: u64)
    requires i < |ss| && ss[i].isActive
    ensures ForceEnd(ss, CountActive(ss[..i]) + 1, now)
         == ForceEnd(ss, CountActive(ss[..i]), now)[i := ss[i].(isActive := false, endTimeNanos := now)]
  {
    var c := CountActive(ss[..i]);
    var before := ForceEnd(ss, c, now);
    var after := ForceEnd(ss, c + 1, now);
    forall k | 0 <= k < |ss| && k != i
      ensures after[k] == before[k]
    {
      if k < i {
        CountsBefore(ss, k, i);
      } else {
        CountsBefore(ss, i, k);
      }
    }
    assert after == before[i := ss[i].(isActive := false, endTimeNanos := now)];
  }

  /** Ending the active spans before index i leaves index i and everything after it untouched. */
  lemma ForceEndBeyond(ss: seq<Span>, i: nat, k: nat, now: u64)
    requires i <= k < |ss|
    ensures ForceEnd(ss, CountActive(ss[..i]), now)[k] == ss[k]
  {
    CountsGrow(ss, i, k);
  }

  /** Once every active span is covered, a larger count ends nothing more. */
  lemma ForceEndSaturate(ss: seq<Span>, m: nat, now: u64)
    requires m >= CountActive(ss)
    ensures ForceEnd(ss, m, now) == ForceEnd(ss, CountActive(ss), now)
  {
    forall k | 0 <= k < |ss| && ss[k].isActive
      ensures CountActive(ss[..k]) < CountActive(ss)
    {
      assert ss[..|ss|] == ss;
      CountsBefore(ss, k, |ss|);
    }
  }

  /** The state of the loop of removeMarkedSpans after the entries t[..i], with `a` the array
      contents: the kept entries fill a[..kept], and the entries from i on are still those of t. */
  ghost predicate Removing(t: seq<Span>, i: nat, kept: nat, a: seq<Span>) {
    kept <= i <= |t| <= |a| && a[..kept] == RemoveMarked(t[..i]) && a[i..|t|] == t[i..]
  }

  lemma RemovingStep(t: seq<Span>, i: nat, kept: nat, a: seq<Span>)
    requires Removing(t, i, kept, a) && i < |t|
    ensures a[i] == t[i]
    ensures IsMarked(t[i]) ==> Removing(t, i + 1, kept, a)
    ensures !IsMarked(t[i]) ==> Removing(t, i + 1, kept + 1, a[kept := a[i]])
  {
    assert a[i..|t|][0] == t[i..][0];
    RemoveMarkedStep(t, i);
    var b := a[kept := a[i]];
    assert b[..kept + 1] == a[..kept] + [a[i]];
    assert b[i + 1..|t|] == a[i + 1..|t|];
    assert a[i + 1..|t|] == a[i..|t|][1..];
  }

  /** The same for the compaction of cleanupOldSpans, which keeps the active entries. */
  ghost predicate Keeping(t: seq<Span>, i: nat, kept: nat, a: seq<Span>) {
    kept <= i <= |t| <= |a| && a[..kept] == KeepActive(t[..i]) && a[i..|t|] == t[i..]
  }

  lemma KeepingStep(t: seq<Span>, i: nat, kept: nat, a: seq<Span>)
    requires Keeping(t, i, kept, a) && i < |t|
    ensures a[i] == t[i]
    ensures !t[i].isActive ==> Keeping(t, i + 1, kept, a)
    ensures t[i].isActive ==> Keeping(t, i + 1, kept + 1, a[kept := a[i]])
  {
    assert a[i..|t|][0] == t[i..][0];
    KeepActiveStep(t, i);
    var b := a[kept := a[i]];
    assert b[..kept + 1] == a[..kept] + [a[i]];
    assert b[i + 1..|t|] == a[i + 1..|t|];
    assert a[i + 1..|t|] == a[i..|t|][1..];
  }

  /** The state of the forcing loop of cleanupOldSpans after the entries t[..i]: the active ones
      among them are ended, no more than n. */
  ghost predicate Forcing(t: seq<Span>, n: nat, now: u64, i: nat, ended: nat, table: seq<Span>) {
    i <= |t| && ended == CountActive(t[..i]) && ended <= n && table == ForceEnd(t, ended, now)
  }

  lemma ForcingStart(t: seq<Span>, n: nat, now: u64)
    ensures Forcing(t, n, now, 0, 0, t)
  {
    assert t[..0] == [];
    assert ForceEnd(t, 0, now) == t;
  }

  lemma ForcingStep(t: seq<Span>, n: nat, now: u64, i: nat, ended: nat, table: seq<Span>)
    requires Forcing(t, n, now, i, ended, table) && i < |t|
    ensures |table| == |t| && table[i] == t[i]
    ensures !t[i].isActive ==> Forcing(t, n, now, i + 1, ended, table)
    ensures t[i].isActive && ended < n ==>
              Forcing(t, n, now, i + 1, ended + 1, table[i := t[i].(isActive := false, endTimeNanos := now)])
  {
    ForceEndBeyond(t, i, i, now);
    CountsStep(t, i);
    if t[i].isActive && ended < n {
      ForcingEnd(t, n, now, i, ended, table);
    }
  }

  lemma ForcingEnd(t: seq<Span>, n: nat, now: u64, i: nat, ended: nat, table: seq<Span>)
    requires Forcing(t, n, now, i, ended, table) && i < |t| && t[i].isActive && ended < n
    ensures Forcing(t, n, now, i + 1, ended + 1, table[i := t[i].(isActive := false, endTimeNanos := now)])
  {
    // The proof uses only the contracts of these table passes, counts.
    hide ForceEnd, CountActive;
    CountsStep(t, i);
    ForceEndStep(t, i, now);
  }

  lemma ForcingDone(t: seq<Span>, n: nat, now: u64, i: nat, ended: nat, table: seq<Span>)
    requires Forcing(t, n, now, i, ended, table)
    requires i == |t| || ended >= n
    ensures table == ForceEnd(t, n, now) && ended == Min(n, CountActive(t))
  {
    if ended < n {
      assert t[..i] == t;
      ForceEndSaturate(t, n, now);
    } else {
      CountsGrow(t, i, |t|);
      assert t[..|t|] == t;
    }
  }

  /** The state of the id-clearing loop of sendTraces after the entries t[..i]. */
  ghost predicate Clearing(t: seq<Span>, i: nat, moved: nat, table: seq<Span>) {
    i <= |t| && moved == CountCompleted(t[..i]) && table == ClearIds(t, moved)
  }

  lemma ClearingStep(t: seq<Span>, i: nat, moved: nat, table: seq<Span>)
    requires Clearing(t, i, moved, table) && i < |t|
    ensures |table| == |t| && table[i] == t[i]
    ensures !IsCompleted(t[i]) ==> Clearing(t, i + 1, moved, table)
    ensures IsCompleted(t[i]) ==> Clearing(t, i + 1, moved + 1, table[i := t[i].(spanId := 0)])
  {
    MarksBeyond(t, i, i);
    CountsStep(t, i);
    if IsCompleted(t[i]) {
      ClearingMark(t, i, moved, table);
    }
  }

  lemma ClearingMark(t: seq<Span>, i: nat, moved: nat, table: seq<Span>)
    requires Clearing(t, i, moved, table) && i < |t| && IsCompleted(t[i])
    ensures Clearing(t, i + 1, moved + 1, table[i := t[i].(spanId := 0)])
  {
    // The proof uses only the contracts of these table passes, counts.
    hide ClearIds, CountCompleted;
    CountsStep(t, i);
    ClearIdsStep(t, i);
  }

  lemma ClearingStart(t: seq<Span>)
    ensures Clearing(t, 0, 0, t)
  {
    assert t[..0] == [];
    assert ClearIds(t, 0) == t;
  }

  lemma ClearingDone(t: seq<Span>, i: nat, moved: nat, table: seq<Span>, m: nat)
    requires Clearing(t, i, moved, table)
    requires (i == |t| && moved <= m) || moved == m
    ensures table == ClearIds(t, m)
  {
    if moved < m {
      assert t[..i] == t;
      MarksSaturate(t, m);
    }
  }
}
