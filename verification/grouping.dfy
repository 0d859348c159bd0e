/**
 * The run algebra behind paragraph grouping: a list of texts cut into
 * consecutive runs by a list of "opens a new run" flags, read back, counted
 * and joined.
 */
module Grouping {
  import opened Text

  /**
   * The texts cut into runs: text `i` opens a new run when `opens[i]` holds,
   * and otherwise joins the run before it. The first text always opens one.
   */
  function Runs(texts: seq<string>, opens: seq<bool>): (gs: seq<seq<string>>)
    requires |opens| == |texts|
    ensures texts == [] <==> gs == []
    ensures |gs| <= |texts|
    ensures forall i :: 0 <= i < |gs| ==> gs[i] != []
  {
    if texts == [] then []
    else if |texts| == 1 then [texts]
    else
      var n := |texts| - 1;
      Extend(Runs(texts[..n], opens[..n]), texts[n], opens[n])
  }

  /** One more text: a run of its own when `open`, else the end of the last run. */
  function Extend(gs: seq<seq<string>>, t: string, open: bool): (hs: seq<seq<string>>)
    requires gs != []
    ensures |hs| == |gs| + (if open then 1 else 0)
    ensures (forall i :: 0 <= i < |gs| ==> gs[i] != []) ==> forall i :: 0 <= i < |hs| ==> hs[i] != []
  {
    if open then gs + [[t]] else gs[..|gs| - 1] + [gs[|gs| - 1] + [t]]
  }

  /** The number of `true` flags. */
  function Count(bs: seq<bool>): nat {
    if bs == [] then 0 else Count(bs[..|bs| - 1]) + (if bs[|bs| - 1] then 1 else 0)
  }

  function Flatten(gs: seq<seq<string>>): seq<string> {
    if gs == [] then [] else Flatten(gs[..|gs| - 1]) + gs[|gs| - 1]
  }

  /** The number of texts in the runs before run `k`: where run `k` starts in the texts. */
  function Offset(gs: seq<seq<string>>, k: nat): nat
    requires k <= |gs|
  {
    |Flatten(gs[..k])|
  }

  /** Text `t`, at position `i` of the texts, is in run `k` at its place there. */
  predicate Placed(gs: seq<seq<string>>, k: nat, i: nat, t: string) {
    && k < |gs|
    && Offset(gs, k) <= i < Offset(gs, k) + |gs[k]|
    && gs[k][i - Offset(gs, k)] == t
  }

  /** Each run joined by single spaces. */
  function JoinEach(gs: seq<seq<string>>): (ps: seq<string>)
    ensures |ps| == |gs|
    ensures forall i :: 0 <= i < |gs| ==> ps[i] == Join(" ", gs[i])
  {
    seq(|gs|, i requires 0 <= i < |gs| => Join(" ", gs[i]))
  }

  /** One more text either opens a new run or extends the last one. */
  lemma RunsStep(texts: seq<string>, opens: seq<bool>, i: nat)
    requires |opens| == |texts| && 0 < i < |texts|
    ensures Runs(texts[..i + 1], opens[..i + 1]) == Extend(Runs(texts[..i], opens[..i]), texts[i], opens[i])
  {
    assert texts[..i + 1][..i] == texts[..i];
    assert opens[..i + 1][..i] == opens[..i];
  }

  /** The runs of one more text, given the runs so far as the closed runs and the current one. */
  lemma RunsAdvance(texts: seq<string>, opens: seq<bool>, i: nat, closed: seq<seq<string>>, current: seq<string>)
    requires |opens| == |texts| && 0 < i < |texts|
    requires Runs(texts[..i], opens[..i]) == closed + [current]
    ensures opens[i] ==> Runs(texts[..i + 1], opens[..i + 1]) == (closed + [current]) + [[texts[i]]]
    ensures !opens[i] ==> Runs(texts[..i + 1], opens[..i + 1]) == closed + [current + [texts[i]]]
  {
    RunsStep(texts, opens, i);
    assert (closed + [current])[..|closed|] == closed;
  }

  lemma JoinEachSnoc(gs: seq<seq<string>>, g: seq<string>)
    ensures JoinEach(gs + [g]) == JoinEach(gs) + [Join(" ", g)]
  {
  }

  lemma FlattenSnoc(gs: seq<seq<string>>, g: seq<string>)
    ensures Flatten(gs + [g]) == Flatten(gs) + g
  {
    assert (gs + [g])[..|gs|] == gs;
  }

  /** One more text, in a new run or at the end of the last one, lands at the end of the concatenation. */
  lemma FlattenStep(gs: seq<seq<string>>, t: string, open: bool)
    requires gs != []
    ensures Flatten(Extend(gs, t, open)) == Flatten(gs) + [t]
  {
    if open {
      FlattenSnoc(gs, [t]);
    } else {
      var hs := gs[..|gs| - 1];
      var last := gs[|gs| - 1];
      FlattenSnoc(hs, last + [t]);
      FlattenSnoc(hs, last);
      assert hs + [last] == gs;
    }
  }

  /** Reading the runs one after another gives every text once, in order. */
  lemma {:induction false} RunsFlatten(texts: seq<string>, opens: seq<bool>)
    requires |opens| == |texts|
    ensures Flatten(Runs(texts, opens)) == texts
  {
    if |texts| == 1 {
      FlattenSnoc([], texts);
      assert [] + [texts] == [texts];
    } else if |texts| > 1 {
      var n := |texts| - 1;
      RunsFlatten(texts[..n], opens[..n]);
      FlattenStep(Runs(texts[..n], opens[..n]), texts[n], opens[n]);
      assert texts == texts[..n] + [texts[n]];
    }
  }

  /** Past the first text, every `true` flag opens one more run. */
  lemma {:induction false} RunsCount(texts: seq<string>, opens: seq<bool>)
    requires |opens| == |texts| && texts != []
    ensures |Runs(texts, opens)| == 1 + Count(opens[1..])
  {
    var n := |texts| - 1;
    if n == 0 {
      assert opens[1..] == [];
    } else {
      RunsCount(texts[..n], opens[..n]);
      assert |Runs(texts, opens)| == |Runs(texts[..n], opens[..n])| + (if opens[n] then 1 else 0);
      assert opens[1..] == opens[..n][1..] + [opens[n]];
      CountSnoc(opens[..n][1..], opens[n]);
    }
  }

  lemma CountSnoc(bs: seq<bool>, b: bool)
    ensures Count(bs + [b]) == Count(bs) + (if b then 1 else 0)
  {
    assert (bs + [b])[..|bs|] == bs;
  }

  /** Joining the joined runs is joining their concatenation. */
  lemma {:induction false} JoinFlatten(gs: seq<seq<string>>)
    requires forall i :: 0 <= i < |gs| ==> gs[i] != []
    ensures Join(" ", JoinEach(gs)) == Join(" ", Flatten(gs))
  {
    if |gs| == 1 {
      FlattenSnoc([], gs[0]);
      assert [] + [gs[0]] == gs;
      assert Flatten(gs) == gs[0];
      assert JoinEach(gs) == [Join(" ", gs[0])];
      assert Join(" ", [Join(" ", gs[0])]) == Join(" ", gs[0]);
    } else if |gs| > 1 {
      var hs := gs[..|gs| - 1];
      var last := gs[|gs| - 1];
      JoinFlatten(hs);
      assert JoinEach(gs) == JoinEach(hs) + [Join(" ", last)] by {
        assert gs == hs + [last];
        JoinEachSnoc(hs, last);
      }
      assert Flatten(gs) == Flatten(hs) + last by {
        assert gs == hs + [last];
        FlattenSnoc(hs, last);
      }
      JoinAppend(" ", JoinEach(hs), [Join(" ", last)]);
      FlattenNonEmpty(hs);
      JoinAppend(" ", Flatten(hs), last);
    }
  }

  lemma {:induction false} FlattenNonEmpty(gs: seq<seq<string>>)
    requires gs != [] && forall i :: 0 <= i < |gs| ==> gs[i] != []
    ensures Flatten(gs) != []
  {
    assert gs[|gs| - 1] != [];
  }

  lemma {:induction false} CountNone(bs: seq<bool>)
    requires forall i :: 0 <= i < |bs| ==> !bs[i]
    ensures Count(bs) == 0
  {
    if bs != [] {
      CountNone(bs[..|bs| - 1]);
    }
  }

  /**
   * Where each text lands: text `i` is in run number `Count(opens[1..i + 1])`,
   * the number of flags set after the first text up to it, at its place in
   * order, and it is the first text of that run exactly when it is the first
   * text of all or its flag is set.
   */
  lemma {:induction false} RunsPlace(texts: seq<string>, opens: seq<bool>, i: nat)
    requires |opens| == |texts| && i < |texts|
    ensures Placed(Runs(texts, opens), Count(opens[1..i + 1]), i, texts[i])
    ensures i == Offset(Runs(texts, opens), Count(opens[1..i + 1])) <==> i == 0 || opens[i]
  {
    var n := |texts| - 1;
    if n == 0 {
      FirstPlace(texts, opens);
    } else if i < n {
      var pt, po := texts[..n], opens[..n];
      RunsPlace(pt, po, i);
      EarlierPlace(texts, opens, i, Runs(pt, po), Count(po[1..i + 1]));
    } else {
      LastPlace(texts, opens);
    }
  }

  /** A single text is a run of its own. */
  lemma FirstPlace(texts: seq<string>, opens: seq<bool>)
    requires |opens| == |texts| == 1
    ensures var gs := Runs(texts, opens); var k := Count(opens[1..1]);
      && k == 0 && gs == [texts] && Offset(gs, k) == 0
  {
    assert opens[1..1] == [];
    assert [texts][..0] == [];
  }

  /** A text before the last one keeps its place when the last text is added. */
  lemma {:induction false} EarlierPlace(texts: seq<string>, opens: seq<bool>, i: nat, gs: seq<seq<string>>, k: nat)
    requires |opens| == |texts| && i < |texts| - 1
    requires gs == Runs(texts[..|texts| - 1], opens[..|texts| - 1])
    requires k == Count(opens[..|texts| - 1][1..i + 1])
    requires Placed(gs, k, i, texts[..|texts| - 1][i])
    requires i == Offset(gs, k) <==> i == 0 || opens[..|texts| - 1][i]
    ensures Placed(Runs(texts, opens), Count(opens[1..i + 1]), i, texts[i])
    ensures i == Offset(Runs(texts, opens), Count(opens[1..i + 1])) <==> i == 0 || opens[i]
  {
    var n := |texts| - 1;
    assert Count(opens[1..i + 1]) == k by {
      assert opens[..n][1..i + 1] == opens[1..i + 1];
    }
    assert texts[..n][i] == texts[i] && opens[..n][i] == opens[i];
    assert Runs(texts, opens) == Extend(gs, texts[n], opens[n]);
    ExtendPlaced(gs, texts[n], opens[n], k, i, texts[i]);
  }

  /** Extending the runs leaves every text already placed where it was. */
  lemma {:induction false} ExtendPlaced(gs: seq<seq<string>>, t: string, open: bool, k: nat, i: nat, x: string)
    requires gs != [] && Placed(gs, k, i, x)
    ensures Placed(Extend(gs, t, open), k, i, x)
    ensures Offset(Extend(gs, t, open), k) == Offset(gs, k)
  {
    ExtendKeeps(gs, t, open, k, i - Offset(gs, k));
  }

  /** Extending the runs leaves the runs before `k` and the first texts of run `k` as they were. */
  lemma {:induction false} ExtendKeeps(gs: seq<seq<string>>, t: string, open: bool, k: nat, j: nat)
    requires gs != [] && k < |gs| && j < |gs[k]|
    ensures var hs := Extend(gs, t, open);
      && k < |hs| && hs[..k] == gs[..k] && Offset(hs, k) == Offset(gs, k)
      && |gs[k]| <= |hs[k]| && hs[k][j] == gs[k][j]
  {
    var hs := Extend(gs, t, open);
    if open {
      assert hs[..k] == gs[..k];
    } else {
      assert hs[..k] == gs[..|gs| - 1][..k] == gs[..k];
    }
  }

  /** The last text opens a run of its own when its flag is set, and otherwise ends the last run. */
  lemma {:induction false} LastPlace(texts: seq<string>, opens: seq<bool>)
    requires |opens| == |texts| && |texts| > 1
    ensures var i := |texts| - 1; Placed(Runs(texts, opens), Count(opens[1..i + 1]), i, texts[i])
    ensures var i := |texts| - 1; i == Offset(Runs(texts, opens), Count(opens[1..i + 1])) <==> opens[i]
  {
    var n := |texts| - 1;
    var t := texts[n];
    var gs := Runs(texts[..n], opens[..n]);
    var hs := Runs(texts, opens);
    assert hs == Extend(gs, t, opens[n]);
    RunsCount(texts[..n], opens[..n]);
    assert opens[..n][1..] == opens[1..n];
    assert opens[1..n + 1] == opens[1..n] + [opens[n]];
    CountSnoc(opens[1..n], opens[n]);
    RunsFlatten(texts[..n], opens[..n]);
    assert |Flatten(gs)| == n;
    var k := Count(opens[1..n + 1]);
    if opens[n] {
      assert k == |gs|;
      assert hs[..k] == gs;
      assert hs[k] == [t];
    } else {
      assert k == |gs| - 1;
      var init := gs[..k];
      assert hs[..k] == init;
      assert gs == init + [gs[k]];
      FlattenSnoc(init, gs[k]);
      assert Offset(hs, k) + |gs[k]| == n;
      assert hs[k] == gs[k] + [t];
    }
  }
}
