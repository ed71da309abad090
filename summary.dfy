/** The per-category summary of a roll call, over the absence codes of the
    checks that take part in it, in check order. */
module Summary {
  import opened Js

  /** One round of the counting loop: `set(code, 0)` when the code is new,
      then `set(code, get(code) + 1)`. */
  function Bump(m: CountMap, code: string): CountMap
  {
    var started := if !m.Has(code) then m.Set(code, 0) else m;
    started.Set(code, started.Get(code) + 1)
  }

  /** One round appends an unseen code with count one; a seen code keeps its
      place and its count goes up by one. */
  lemma BumpStep(m: CountMap, code: string)
    ensures CountedOnceMore(m, Bump(m, code), code)
  {
    if !m.Has(code) {
      assert m.Set(code, 0).Set(code, 1).values == m.values[code := 0][code := 1];
    }
  }

  /** The map the counting loop ends with, having seen `codes` in order. */
  function Tally(codes: seq<string>): CountMap
  {
    if codes == [] then EmptyCountMap
    else Bump(Tally(codes[..|codes| - 1]), codes[|codes| - 1])
  }

  /** Counting one more code is one more round of the loop. */
  lemma TallySnoc(seen: seq<string>, code: string)
    ensures Tally(seen + [code]) == Bump(Tally(seen), code)
  {
    var codes := seen + [code];
    assert codes[..|codes| - 1] == seen;
  }

  lemma TallyStep(init: seq<string>, code: string)
    ensures CountedOnceMore(Tally(init), Tally(init + [code]), code)
  {
    TallySnoc(init, code);
    BumpStep(Tally(init), code);
  }

  /** The map is well formed and holds exactly the codes seen. */
  lemma {:induction false} TallyValid(codes: seq<string>)
    ensures Tally(codes).Valid()
    ensures forall k :: k in Tally(codes).values <==> k in codes
  {
    if codes != [] {
      var init := codes[..|codes| - 1];
      var code := codes[|codes| - 1];
      assert codes == init + [code];
      TallyValid(init);
      var m := Tally(init);
      if m.Has(code) {
        SetKeepsValid(m, code, m.values[code] + 1);
      } else {
        SetKeepsValid(m, code, 0);
        SetKeepsValid(m.Set(code, 0), code, 1);
      }
    }
  }

  /** How many times `k` occurs in `codes`. */
  function Occurs(codes: seq<string>, k: string): nat
  {
    if codes == [] then 0
    else Occurs(codes[..|codes| - 1], k) + (if codes[|codes| - 1] == k then 1 else 0)
  }

  /** The position of the first occurrence of `k` in `codes`. */
  function FirstIndex(codes: seq<string>, k: string): (i: nat)
    requires k in codes
    ensures i < |codes| && codes[i] == k
    ensures forall j :: 0 <= j < i ==> codes[j] != k
  {
    if codes[0] == k then 0 else 1 + FirstIndex(codes[1..], k)
  }

  /** The text of one entry, `code: count`. */
  function EntryText(e: (string, nat)): string
  {
    e.0 + ": " + NumberText(e.1)
  }

  function Render(entries: seq<(string, nat)>): (r: seq<string>)
    ensures |r| == |entries|
    ensures forall i :: 0 <= i < |entries| ==> r[i] == EntryText(entries[i])
  {
    seq(|entries|, i requires 0 <= i < |entries| => EntryText(entries[i]))
  }

  /** The summary line: each counted code with its count, comma-separated. */
  function SummaryText(codes: seq<string>): string
  {
    TallyValid(codes);
    Join(Render(Tally(codes).Entries()), ", ")
  }

  /** Every code is counted exactly as often as it occurs, so each stored
      count is at least one. */
  lemma {:induction false} TallyCounts(codes: seq<string>, k: string)
    ensures k in codes ==> k in Tally(codes).values && Tally(codes).values[k] == Occurs(codes, k) >= 1
    ensures k !in codes ==> k !in Tally(codes).values && Occurs(codes, k) == 0
  {
    if codes != [] {
      var init := codes[..|codes| - 1];
      var code := codes[|codes| - 1];
      assert codes == init + [code];
      TallyCounts(init, k);
      TallyValid(init);
      TallyValid(codes);
      TallyStep(init, code);
    }
  }

  /** Adding up a map's values over `keys`. */
  function SumOver(keys: seq<string>, values: map<string, nat>): nat
    requires forall i :: 0 <= i < |keys| ==> keys[i] in values
  {
    if keys == [] then 0 else SumOver(keys[..|keys| - 1], values) + values[keys[|keys| - 1]]
  }

  lemma {:induction false} SumOverOther(keys: seq<string>, values: map<string, nat>, k: string, v: nat)
    requires forall i :: 0 <= i < |keys| ==> keys[i] in values
    requires k !in keys
    ensures SumOver(keys, values[k := v]) == SumOver(keys, values)
  {
    if keys != [] {
      SumOverOther(keys[..|keys| - 1], values, k, v);
    }
  }

  lemma {:induction false} SumOverIncrement(keys: seq<string>, values: map<string, nat>, k: string)
    requires forall i :: 0 <= i < |keys| ==> keys[i] in values
    requires forall i, j :: 0 <= i < j < |keys| ==> keys[i] != keys[j]
    requires k in keys
    ensures SumOver(keys, values[k := values[k] + 1]) == SumOver(keys, values) + 1
  {
    var init := keys[..|keys| - 1];
    if keys[|keys| - 1] == k {
      assert k !in init;
      SumOverOther(init, values, k, values[k] + 1);
    } else {
      SumOverIncrement(init, values, k);
    }
  }

  /** `n` is `m` after counting one more `code`. */
  ghost predicate CountedOnceMore(m: CountMap, n: CountMap, code: string)
  {
    (m.Has(code) ==> n.keys == m.keys && n.values == m.values[code := m.values[code] + 1]) &&
    (!m.Has(code) ==> n.keys == m.keys + [code] && n.values == m.values[code := 1])
  }

  lemma CountStepSum(m: CountMap, n: CountMap, code: string)
    requires m.Valid() && n.Valid() && CountedOnceMore(m, n, code)
    ensures SumOver(n.keys, n.values) == SumOver(m.keys, m.values) + 1
  {
    if m.Has(code) {
      SumOverIncrement(m.keys, m.values, code);
    } else {
      assert n.keys[..|n.keys| - 1] == m.keys;
      SumOverOther(m.keys, m.values, code, 1);
    }
  }

  /** The counts add up to the number of codes counted. */
  lemma {:induction false} TallySum(codes: seq<string>)
    ensures Tally(codes).Valid()
    ensures SumOver(Tally(codes).keys, Tally(codes).values) == |codes|
  {
    TallyValid(codes);
    if codes != [] {
      var init, code := codes[..|codes| - 1], codes[|codes| - 1];
      assert codes == init + [code];
      TallySum(init);
      TallyStep(init, code);
      CountStepSum(Tally(init), Tally(codes), code);
    }
  }

  /** The keys of `m` are codes of `codes`, listed in the order of their first
      occurrence. */
  ghost predicate FirstSeenOrder(m: CountMap, codes: seq<string>)
  {
    forall i, j :: 0 <= i < j < |m.keys| ==>
      m.keys[i] in codes && m.keys[j] in codes && FirstIndex(codes, m.keys[i]) < FirstIndex(codes, m.keys[j])
  }

  lemma CountStepOrder(m: CountMap, n: CountMap, init: seq<string>, code: string)
    requires m.Valid() && CountedOnceMore(m, n, code)
    requires forall k :: k in m.values <==> k in init
    requires FirstSeenOrder(m, init)
    ensures FirstSeenOrder(n, init + [code])
  {
    var codes := init + [code];
    forall k | k in init
      ensures FirstIndex(codes, k) == FirstIndex(init, k)
    {
      FirstIndexPrefix(init, code, k);
    }
    if !m.Has(code) {
      FirstIndexLast(init, code);
      forall i | 0 <= i < |m.keys|
        ensures FirstIndex(codes, n.keys[i]) < FirstIndex(codes, code)
      {
        assert n.keys[i] == m.keys[i] && m.keys[i] in init;
      }
    }
  }

  /** The codes are listed in the order of their first occurrence. */
  lemma {:induction false} TallyOrder(codes: seq<string>)
    ensures FirstSeenOrder(Tally(codes), codes)
  {
    if codes != [] {
      var init, code := codes[..|codes| - 1], codes[|codes| - 1];
      assert codes == init + [code];
      TallyOrder(init);
      TallyValid(init);
      TallyStep(init, code);
      CountStepOrder(Tally(init), Tally(codes), init, code);
    }
  }

  lemma {:induction false} FirstIndexPrefix(init: seq<string>, code: string, k: string)
    requires k in init
    ensures FirstIndex(init + [code], k) == FirstIndex(init, k)
  {
    if init[0] != k {
      assert (init + [code])[1..] == init[1..] + [code];
      FirstIndexPrefix(init[1..], code, k);
    }
  }

  lemma {:induction false} FirstIndexLast(init: seq<string>, code: string)
    requires code !in init
    ensures FirstIndex(init + [code], code) == |init|
  {
    if init != [] {
      assert (init + [code])[1..] == init[1..] + [code];
      FirstIndexLast(init[1..], code);
    }
  }

  /** The summary is empty exactly when nothing is counted. */
  lemma SummaryEmpty(codes: seq<string>)
    ensures SummaryText(codes) == "" <==> codes == []
  {
    TallyValid(codes);
    var parts := Render(Tally(codes).Entries());
    forall i | 0 <= i < |parts|
      ensures parts[i] != ""
    {
      assert |parts[i]| >= 2;
    }
    JoinEmpty(parts, ", ");
    if codes != [] {
      assert codes[0] in Tally(codes).values;
      assert |Tally(codes).keys| > 0;
    }
  }

  /** Two checks marked SICK and one marked LEAVE, in that order: SICK is
      listed first. */
  lemma TallyExample()
    ensures Tally(["SICK", "SICK", "LEAVE"]) == CountMap(["SICK", "LEAVE"], map["SICK" := 2, "LEAVE" := 1])
  {
    assert ["SICK"][..0] == [];
    assert Tally(["SICK"]) == CountMap(["SICK"], map["SICK" := 1]);
    assert ["SICK", "SICK"][..1] == ["SICK"];
    assert Tally(["SICK", "SICK"]) == CountMap(["SICK"], map["SICK" := 2]);
    assert ["SICK", "SICK", "LEAVE"][..2] == ["SICK", "SICK"];
  }

  /** The rendered entries of the example. */
  lemma RenderExample()
    ensures Render([("SICK", 2), ("LEAVE", 1)]) == ["SICK: 2", "LEAVE: 1"]
  {
    assert NumberText(2) == "2" && NumberText(1) == "1";
    assert EntryText(("SICK", 2)) == "SICK: 2";
    assert EntryText(("LEAVE", 1)) == "LEAVE: 1";
  }

  lemma EntriesExample()
    ensures CountMap(["SICK", "LEAVE"], map["SICK" := 2, "LEAVE" := 1]).Entries() == [("SICK", 2), ("LEAVE", 1)]
  {
  }

  lemma JoinExample()
    ensures Join(["SICK: 2", "LEAVE: 1"], ", ") == "SICK: 2, LEAVE: 1"
  {
    assert Join(["SICK: 2", "LEAVE: 1"], ", ") == "SICK: 2" + ", " + Join(["LEAVE: 1"], ", ");
  }

  lemma SummaryExample()
    ensures SummaryText(["SICK", "SICK", "LEAVE"]) == "SICK: 2, LEAVE: 1"
  {
    TallyExample();
    EntriesExample();
    RenderExample();
    JoinExample();
  }
}
