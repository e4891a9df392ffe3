/** Order-preserving de-duplication, the `seen` set plus `out` list that
    every scraper version fills while it extracts: the first occurrence of
    each value is kept, in the order of first occurrence. */
module FirstSeen {
  import opened Normalize

  predicate NoDup(s: seq<string>) {
    forall i, j :: 0 <= i < j < |s| ==> s[i] != s[j]
  }

  /** The reference definition: walk the input and append each value not
      yet in the output. */
  function Dedup(xs: seq<string>): (r: seq<string>)
    ensures NoDup(r)
    ensures forall x :: x in r <==> x in xs
    ensures |r| <= |xs|
  {
    if xs == [] then []
    else
      var d := Dedup(xs[..|xs| - 1]);
      var x := xs[|xs| - 1];
      assert forall y :: y in xs <==> y in xs[..|xs| - 1] || y == x;
      if x in d then d else d + [x]
  }

  /** The present values of a sequence of optional values, in order. */
  function Somes(xs: seq<Option<string>>): (r: seq<string>)
    ensures forall x :: x in r <==> Some(x) in xs
    ensures |r| <= |xs|
  {
    if xs == [] then []
    else
      var init := Somes(xs[..|xs| - 1]);
      assert forall y :: y in xs <==> y in xs[..|xs| - 1] || y == xs[|xs| - 1];
      match xs[|xs| - 1]
      case None => init
      case Some(x) => init + [x]
  }

  lemma {:induction false} SomesAppend(xs: seq<Option<string>>, ys: seq<Option<string>>)
    ensures Somes(xs + ys) == Somes(xs) + Somes(ys)
    decreases |ys|
  {
    if ys == [] {
      assert xs + ys == xs;
    } else {
      var ys' := ys[..|ys| - 1];
      assert (xs + ys)[..|xs + ys| - 1] == xs + ys';
      SomesAppend(xs, ys');
    }
  }

  /** Extending the input only appends to the output: de-duplicating
      `xs` gives a prefix of de-duplicating `xs + ys`. */
  lemma {:induction false} DedupPrefix(xs: seq<string>, ys: seq<string>)
    ensures |Dedup(xs)| <= |Dedup(xs + ys)|
    ensures Dedup(xs + ys)[..|Dedup(xs)|] == Dedup(xs)
    decreases |ys|
  {
    if ys == [] {
      assert xs + ys == xs;
    } else {
      var ys' := ys[..|ys| - 1];
      assert (xs + ys)[..|xs + ys| - 1] == xs + ys';
      DedupPrefix(xs, ys');
    }
  }

  /** Appending one value: the output grows by that value exactly when it
      is new. */
  lemma DedupSnoc(xs: seq<string>, x: string)
    ensures Dedup(xs + [x]) == if x in xs then Dedup(xs) else Dedup(xs) + [x]
  {
    assert (xs + [x])[..|xs|] == xs;
  }

  /** Position of the first occurrence of `x` in `xs`. */
  function FirstPos(xs: seq<string>, x: string): (i: nat)
    requires x in xs
    ensures i < |xs| && xs[i] == x
    ensures forall k :: 0 <= k < i ==> xs[k] != x
  {
    if xs[0] == x then 0 else 1 + FirstPos(xs[1..], x)
  }

  lemma FirstPosPrefix(xs: seq<string>, ys: seq<string>, x: string)
    requires x in xs
    ensures FirstPos(xs + ys, x) == FirstPos(xs, x)
  {
    var i := FirstPos(xs, x);
    var j := FirstPos(xs + ys, x);
    assert (xs + ys)[i] == x;
  }

  /** First-seen order: values appear in the output in the order of their
      first occurrence in the input. */
  lemma {:induction false} DedupOrder(xs: seq<string>, i: nat, j: nat)
    requires i < j < |Dedup(xs)|
    ensures FirstPos(xs, Dedup(xs)[i]) < FirstPos(xs, Dedup(xs)[j])
    decreases |xs|
  {
    var init := xs[..|xs| - 1];
    var x := xs[|xs| - 1];
    var d := Dedup(init);
    assert xs == init + [x];
    var a, b := Dedup(xs)[i], Dedup(xs)[j];
    if x in d || j < |d| {
      assert a == d[i] && b == d[j];
      DedupOrder(init, i, j);
      FirstPosPrefix(init, [x], a);
      FirstPosPrefix(init, [x], b);
    } else {
      assert b == x && x !in init;
      assert a == d[i] && a in init;
      FirstPosPrefix(init, [x], a);
      assert FirstPos(xs, b) == |init|;
    }
  }

  /** The reference definition is the only sequence that is duplicate-free,
      holds exactly the input's values, and keeps first-seen order. */
  lemma {:induction false} DedupUnique(xs: seq<string>, r: seq<string>)
    requires NoDup(r)
    requires forall x :: x in r <==> x in xs
    requires forall i, j :: 0 <= i < j < |r| ==> FirstPos(xs, r[i]) < FirstPos(xs, r[j])
    ensures r == Dedup(xs)
    decreases |xs|, 1
  {
    if xs != [] {
      var init := xs[..|xs| - 1];
      var x := xs[|xs| - 1];
      assert xs == init + [x];
      if x in init {
        DedupUniqueRepeat(init, x, r);
      } else {
        DedupUniqueNew(init, x, r);
      }
    } else {
      NothingIsEmpty(r);
    }
  }

  lemma NothingIsEmpty(r: seq<string>)
    ensures (forall x :: x !in r) ==> r == []
  {
    if r != [] {
      assert r[0] in r;
    }
  }

  /** The last input value was seen before: `r` is the answer for the
      shorter input already. */
  lemma {:induction false} DedupUniqueRepeat(init: seq<string>, x: string, r: seq<string>)
    requires x in init
    requires NoDup(r)
    requires forall y :: y in r <==> y in init + [x]
    requires forall i, j :: 0 <= i < j < |r| ==> FirstPos(init + [x], r[i]) < FirstPos(init + [x], r[j])
    ensures r == Dedup(init + [x])
    decreases |init| + 1, 0
  {
    forall y | y in r ensures y in init && FirstPos(init + [x], y) == FirstPos(init, y) {
      FirstPosPrefix(init, [x], y);
    }
    forall y | y in init ensures y in r { assert y in init + [x]; }
    forall i, j | 0 <= i < j < |r| ensures FirstPos(init, r[i]) < FirstPos(init, r[j]) {
      assert r[i] in r && r[j] in r;
    }
    DedupUnique(init, r);
    DedupSnoc(init, x);
  }

  /** The last input value is new: its first position is the last one, so
      it ends `r`, and the rest of `r` is the answer for the shorter input. */
  lemma {:induction false} DedupUniqueNew(init: seq<string>, x: string, r: seq<string>)
    requires x !in init
    requires NoDup(r)
    requires forall y :: y in r <==> y in init + [x]
    requires forall i, j :: 0 <= i < j < |r| ==> FirstPos(init + [x], r[i]) < FirstPos(init + [x], r[j])
    ensures r == Dedup(init + [x])
    decreases |init| + 1, 0
  {
    NewIsLast(init, x, r);
    var r' := r[..|r| - 1];
    assert r == r' + [x];
    DropNew(init, x, r, r');
    DedupUnique(init, r');
    DedupSnoc(init, x);
  }

  /** A value whose first position is the last one ends `r`. */
  lemma NewIsLast(init: seq<string>, x: string, r: seq<string>)
    requires x !in init
    requires forall y :: y in r <==> y in init + [x]
    requires forall i, j :: 0 <= i < j < |r| ==> FirstPos(init + [x], r[i]) < FirstPos(init + [x], r[j])
    ensures r != [] && r[|r| - 1] == x
  {
    var xs := init + [x];
    assert xs[|init|] == x;
    assert FirstPos(xs, x) == |init|;
    assert x in xs;
    var last := r[|r| - 1];
    assert last in r && last in xs;
    assert FirstPos(xs, last) <= |init|;
    forall j | 0 <= j < |r| - 1 ensures r[j] != x {
      assert FirstPos(xs, r[j]) < FirstPos(xs, last);
    }
    var k :| 0 <= k < |r| && r[k] == x;
  }

  /** Without its last value, `r` meets the conditions for `init`. */
  lemma DropNew(init: seq<string>, x: string, r: seq<string>, r': seq<string>)
    requires x !in init
    requires NoDup(r) && r == r' + [x]
    requires forall y :: y in r <==> y in init + [x]
    requires forall i, j :: 0 <= i < j < |r| ==> FirstPos(init + [x], r[i]) < FirstPos(init + [x], r[j])
    ensures NoDup(r')
    ensures forall y :: y in r' <==> y in init
    ensures forall i, j :: 0 <= i < j < |r'| ==> FirstPos(init, r'[i]) < FirstPos(init, r'[j])
  {
    var xs := init + [x];
    forall y | y in r' ensures y in init && FirstPos(xs, y) == FirstPos(init, y) {
      var i :| 0 <= i < |r'| && r'[i] == y;
      assert r[i] == y && r[|r| - 1] == x;
      assert y in r && y != x;
      FirstPosPrefix(init, [x], y);
    }
    forall y | y in init ensures y in r' {
      assert y in r && y != x;
    }
    forall i, j | 0 <= i < j < |r'| ensures FirstPos(init, r'[i]) < FirstPos(init, r'[j]) {
      assert r'[i] == r[i] && r'[j] == r[j];
      assert r'[i] in r' && r'[j] in r';
    }
  }

  /** Mapping then de-duplicating ignores an earlier de-duplication of the
      raw values: a repeated raw value maps to a value already kept. */
  lemma {:induction false} DedupBeforeMap(xs: seq<string>, f: string -> Option<string>)
    ensures Dedup(Somes(MapSeq(Dedup(xs), f))) == Dedup(Somes(MapSeq(xs, f)))
    decreases |xs|
  {
    if xs != [] {
      var init := xs[..|xs| - 1];
      var x := xs[|xs| - 1];
      assert xs == init + [x];
      MapAppend(init, [x], f);
      SomesAppend(MapSeq(init, f), MapSeq([x], f));
      var dx := Dedup(Somes(MapSeq(xs, f)));
      var di := Dedup(Somes(MapSeq(init, f)));
      DedupBeforeMap(init, f);
      var d := Dedup(init);
      MapAppend(d, [x], f);
      SomesAppend(MapSeq(d, f), MapSeq([x], f));
      match f(x)
      case None =>
        assert Somes(MapSeq([x], f)) == [];
        assert Somes(MapSeq(xs, f)) == Somes(MapSeq(init, f));
        if x !in d {
          assert Somes(MapSeq(d + [x], f)) == Somes(MapSeq(d, f));
        }
      case Some(v) =>
        assert Somes(MapSeq([x], f)) == [v];
        DedupSnoc(Somes(MapSeq(init, f)), v);
        if x in init {
          MapHas(init, f, x);
          assert v in Somes(MapSeq(init, f));
        } else {
          DedupSnoc(Somes(MapSeq(d, f)), v);
          SomesSameSet(MapSeq(d, f), MapSeq(init, f), d, init, f);
        }
    }
  }

  /** `f` applied to each element, in order. */
  function MapSeq<A, B>(xs: seq<A>, f: A -> B): (r: seq<B>)
    ensures |r| == |xs|
    ensures forall k :: 0 <= k < |xs| ==> r[k] == f(xs[k])
  {
    seq(|xs|, k requires 0 <= k < |xs| => f(xs[k]))
  }

  lemma MapSeqSnoc<A, B>(xs: seq<A>, i: nat, f: A -> B)
    requires i < |xs|
    ensures MapSeq(xs[..i + 1], f) == MapSeq(xs[..i], f) + [f(xs[i])]
  {
  }

  /** Feeding optional values one at a time to a `seen` set and an
      `out` list: each present value not in the list yet is appended. */
  function Gather(xs: seq<Option<string>>): seq<string> {
    if xs == [] then []
    else
      var prev := Gather(xs[..|xs| - 1]);
      match xs[|xs| - 1]
      case None => prev
      case Some(u) => if u in prev then prev else prev + [u]
  }

  lemma GatherSnoc(xs: seq<Option<string>>, o: Option<string>)
    ensures o.None? || o.value in Gather(xs) ==> Gather(xs + [o]) == Gather(xs)
    ensures o.Some? && o.value !in Gather(xs) ==> Gather(xs + [o]) == Gather(xs) + [o.value]
  {
    assert (xs + [o])[..|xs|] == xs;
  }

  /** Appending step by step builds the reference de-duplication. */
  lemma {:induction false} GatherIsDedup(xs: seq<Option<string>>)
    ensures Gather(xs) == Dedup(Somes(xs))
  {
    if xs != [] {
      var n := |xs| - 1;
      GatherIsDedup(xs[..n]);
      assert xs[..n] + [xs[n]] == xs;
      DedupSomesSnoc(xs[..n], xs[n]);
    }
  }

  /** One more optional value: the output grows by its value exactly
      when it is present and new. */
  lemma DedupSomesSnoc(xs: seq<Option<string>>, o: Option<string>)
    ensures Dedup(Somes(xs + [o])) ==
            match o
            case None => Dedup(Somes(xs))
            case Some(v) => if v in Dedup(Somes(xs)) then Dedup(Somes(xs)) else Dedup(Somes(xs)) + [v]
  {
    SomesAppend(xs, [o]);
    match o
    case None =>
      assert Somes([o]) == [];
      assert Somes(xs + [o]) == Somes(xs);
    case Some(v) =>
      assert Somes([o]) == [v];
      DedupSnoc(Somes(xs), v);
  }

  lemma MapAppend<A, B>(xs: seq<A>, ys: seq<A>, f: A -> B)
    ensures MapSeq(xs + ys, f) == MapSeq(xs, f) + MapSeq(ys, f)
  {
  }

  lemma MapHas(xs: seq<string>, f: string -> Option<string>, x: string)
    requires x in xs
    ensures f(x) in MapSeq(xs, f)
  {
    var k :| 0 <= k < |xs| && xs[k] == x;
    assert MapSeq(xs, f)[k] == f(x);
  }

  /** Two inputs with the same values give mapped sequences with the
      same present values. */
  lemma SomesSameSet(m1: seq<Option<string>>, m2: seq<Option<string>>, xs1: seq<string>, xs2: seq<string>, f: string -> Option<string>)
    requires m1 == MapSeq(xs1, f) && m2 == MapSeq(xs2, f)
    requires forall x :: x in xs1 <==> x in xs2
    ensures forall v :: v in Somes(m1) <==> v in Somes(m2)
  {
    forall v | v in Somes(m1) ensures v in Somes(m2) {
      var k :| 0 <= k < |m1| && m1[k] == Some(v);
      MapHas(xs2, f, xs1[k]);
    }
    forall v | v in Somes(m2) ensures v in Somes(m1) {
      var k :| 0 <= k < |m2| && m2[k] == Some(v);
      MapHas(xs1, f, xs2[k]);
    }
  }
}
