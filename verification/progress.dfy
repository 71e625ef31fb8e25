/**
 * The progress store (src/hooks/useProgress.ts): completion flags keyed by
 * question identifier, toggled one at a time, read with absent keys as
 * false, and summarised as completed / remaining / percentage counts.
 * React state is replaced by explicit map values; storage I/O by a `Saved`
 * input describing what the storage read and JSON parse produced.
 */
module Progress {
  import opened Types

  /** What reading and parsing the saved progress entry produced. */
  datatype Saved =
    | Missing                        // no entry, or an empty string
    | Corrupt                        // the text did not parse, or parsed to a non-object
    | Parsed(data: StoredProgress)   // a parsed object

  /** The statistics triple returned by getStats. */
  datatype Stats = Stats(completed: nat, remaining: int, percentage: int)

  /** The initial progress map: the saved `questions` field, or empty on any failure. */
  function Load(saved: Saved): (p: QuestionProgress)
    ensures saved.Parsed? && saved.data.questions.Some? ==> p == saved.data.questions.value
    ensures !(saved.Parsed? && saved.data.questions.Some?) ==> p == map[]
  {
    match saved
    case Parsed(StoredProgress(Some(questions))) => questions
    case _ => map[]
  }

  /** The document written back to storage after every change; loading it gives the map back. */
  function Save(p: QuestionProgress): (doc: StoredProgress)
    ensures Load(Parsed(doc)) == p
  {
    StoredProgress(Some(p))
  }

  /** Whatever is written is what the next start-up loads. */
  lemma LoadAfterSave(p: QuestionProgress)
    ensures Load(Parsed(Save(p))) == p
  {
  }

  /** The completion flag of a question; an absent identifier reads as false. */
  function IsCompleted(p: QuestionProgress, id: string): (done: bool)
    ensures done <==> id in p && p[id]
    ensures id !in p ==> !done
  {
    if id in p then p[id] else false
  }

  /** Flips the flag of one question; an absent identifier becomes true. */
  function Toggle(p: QuestionProgress, id: string): (p': QuestionProgress)
    ensures IsCompleted(p', id) == !IsCompleted(p, id)
    ensures p'.Keys == p.Keys + {id}
    ensures forall other :: other != id && other in p ==> p'[other] == p[other]
  {
    p[id := !IsCompleted(p, id)]
  }

  /** Toggling twice restores every flag; the map itself is restored only when the key was present. */
  lemma ToggleTwice(p: QuestionProgress, id: string)
    ensures forall x :: IsCompleted(Toggle(Toggle(p, id), id), x) == IsCompleted(p, x)
    ensures id in p ==> Toggle(Toggle(p, id), id) == p
    ensures id !in p ==> Toggle(Toggle(p, id), id) == p[id := false]
  {
  }

  /** Applies the toggles of `ids` in order. */
  function ToggleAll(p: QuestionProgress, ids: seq<string>): QuestionProgress
    decreases |ids|
  {
    if |ids| == 0 then p else ToggleAll(Toggle(p, ids[0]), ids[1..])
  }

  /** After any sequence of toggles, a flag is flipped exactly when its identifier was toggled an odd number of times. */
  lemma {:induction false} ToggleAllParity(p: QuestionProgress, ids: seq<string>, x: string)
    ensures IsCompleted(ToggleAll(p, ids), x) == (IsCompleted(p, x) != (multiset(ids)[x] % 2 == 1))
    decreases |ids|
  {
    if |ids| > 0 {
      ToggleAllParity(Toggle(p, ids[0]), ids[1..], x);
      assert ids == [ids[0]] + ids[1..];
      assert multiset(ids) == multiset{ids[0]} + multiset(ids[1..]);
    }
  }

  /** The identifiers of `ids` that read as completed, in order, duplicates kept. */
  function CompletedIds(p: QuestionProgress, ids: seq<string>): (r: seq<string>)
    ensures |r| <= |ids|
    ensures forall x :: x in r ==> x in ids && IsCompleted(p, x)
    ensures forall x :: x in ids && IsCompleted(p, x) ==> x in r
    decreases |ids|
  {
    if |ids| == 0 then []
    else
      var init := ids[..|ids| - 1];
      var last := ids[|ids| - 1];
      assert ids == init + [last];
      CompletedIds(p, init) + (if IsCompleted(p, last) then [last] else [])
  }

  /** The positions of `ids` whose identifier reads as completed. */
  ghost function CompletedPositions(p: QuestionProgress, ids: seq<string>): set<nat>
  {
    set k: nat | k < |ids| && IsCompleted(p, ids[k])
  }

  /** The completed count is the number of list positions whose identifier reads true. */
  lemma {:induction false} CompletedCountIsPositions(p: QuestionProgress, ids: seq<string>)
    ensures |CompletedIds(p, ids)| == |CompletedPositions(p, ids)|
    decreases |ids|
  {
    if |ids| > 0 {
      var init := ids[..|ids| - 1];
      var last := ids[|ids| - 1];
      assert ids == init + [last];
      CompletedCountIsPositions(p, init);
      var before := CompletedPositions(p, init);
      var added: set<nat> := if IsCompleted(p, last) then {|init|} else {};
      PositionsOfSnoc(p, init, last);
      assert |init| !in before;
      assert |before + added| == |before| + |added|;
    }
  }

  lemma PositionsOfSnoc(p: QuestionProgress, init: seq<string>, last: string)
    ensures CompletedPositions(p, init + [last])
         == CompletedPositions(p, init) + (if IsCompleted(p, last) then {|init|} else {})
  {
    var ids := init + [last];
    forall k: nat ensures k in CompletedPositions(p, ids) <==>
      k in CompletedPositions(p, init) + (if IsCompleted(p, last) then {|init|} else {})
    {
      if k < |init| {
        assert ids[k] == init[k];
      }
    }
  }

  /** Counting over a concatenation adds the counts of the parts. */
  lemma {:induction false} CompletedIdsAppend(p: QuestionProgress, a: seq<string>, b: seq<string>)
    ensures CompletedIds(p, a + b) == CompletedIds(p, a) + CompletedIds(p, b)
    decreases |b|
  {
    if |b| > 0 {
      var b' := b[..|b| - 1];
      var last := b[|b| - 1];
      var tail: seq<string> := if IsCompleted(p, last) then [last] else [];
      CompletedIdsAppend(p, a, b');
      assert (a + b)[..|a + b| - 1] == a + b';
      assert (a + b)[|a + b| - 1] == last;
      assert CompletedIds(p, a + b) == CompletedIds(p, a + b') + tail;
      assert CompletedIds(p, b) == CompletedIds(p, b') + tail;
      assert (CompletedIds(p, a) + CompletedIds(p, b')) + tail == CompletedIds(p, a) + (CompletedIds(p, b') + tail);
    } else {
      assert a + b == a;
    }
  }

  /** Toggling one identifier moves the count by its number of occurrences in the list. */
  lemma {:induction false} ToggleShiftsCount(p: QuestionProgress, id: string, ids: seq<string>)
    ensures IsCompleted(p, id) ==> |CompletedIds(Toggle(p, id), ids)| == |CompletedIds(p, ids)| - multiset(ids)[id]
    ensures !IsCompleted(p, id) ==> |CompletedIds(Toggle(p, id), ids)| == |CompletedIds(p, ids)| + multiset(ids)[id]
    decreases |ids|
  {
    if |ids| > 0 {
      var init := ids[..|ids| - 1];
      var last := ids[|ids| - 1];
      ToggleShiftsCount(p, id, init);
      assert ids == init + [last];
      assert multiset(ids) == multiset(init) + multiset{last};
    }
  }

  /** Math.round on the exact ratio: round-half-up of 100 * completed / total. */
  function Percentage(completed: nat, total: int): (pct: int)
    ensures total <= 0 ==> pct == 0
    ensures total > 0 ==> 2 * total * pct - total <= 200 * completed < 2 * total * pct + total
    ensures total > 0 && completed <= total ==> 0 <= pct <= 100
  {
    if total > 0 then
      var pct := (200 * completed + total) / (2 * total);
      DivBounds(200 * completed + total, 2 * total, pct);
      if completed <= total then
        PercentageAtMostHundred(completed, total, pct);
        pct
      else
        pct
    else 0
  }

  lemma DivBounds(n: int, d: int, q: int)
    requires d > 0 && q == n / d
    ensures d * q <= n < d * q + d
  {
  }

  lemma PercentageAtMostHundred(c: nat, t: int, pct: int)
    requires 0 < t && c <= t
    requires 2 * t * pct <= 200 * c + t
    requires 200 * c + t >= 0 && 2 * t * pct > 200 * c + t - 2 * t
    ensures 0 <= pct <= 100
  {
    var u := 2 * t;
    MulSign(u, pct - 101);
    MulSign(u, pct + 1);
    assert u * (pct - 101) == u * pct - 101 * u;
    assert u * (pct + 1) == u * pct + u;
  }

  lemma MulSign(u: int, x: int)
    requires u > 0
    ensures x >= 0 ==> u * x >= 0
    ensures x < 0 ==> u * x < 0
  {
  }

  /**
   * getStats: the completed count over the caller's identifier list, the
   * remainder against the caller's total, and the rounded percentage. The
   * list and the total are not checked against each other.
   */
  function GetStats(p: QuestionProgress, totalQuestions: int, ids: seq<string>): (s: Stats)
    ensures s.completed == |CompletedPositions(p, ids)| <= |ids|
    ensures s.completed + s.remaining == totalQuestions
    ensures s.percentage == Percentage(s.completed, totalQuestions)
    ensures totalQuestions <= 0 ==> s.percentage == 0
    ensures totalQuestions > 0 ==>
      2 * totalQuestions * s.percentage - totalQuestions <= 200 * s.completed < 2 * totalQuestions * s.percentage + totalQuestions
    ensures s.completed <= totalQuestions ==> 0 <= s.percentage <= 100
  {
    var completed := |CompletedIds(p, ids)|;
    CompletedCountIsPositions(p, ids);
    Stats(completed, totalQuestions - completed, Percentage(completed, totalQuestions))
  }
}
