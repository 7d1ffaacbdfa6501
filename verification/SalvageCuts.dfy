/** What cutting a response short does to the salvage, on any input at all. */
module SalvageCuts {
  import opened Common
  import opened JsonText
  import opened Salvage

  function Within<T>(r: Option<T>, ok: bool): Option<T> {
    if ok then r else None
  }

  // ---- One object ----

  lemma {:induction false} ObjectEndCut(s: Text, k: nat, i: nat, w: Walk)
    requires i <= k <= |s|
    ensures var e := ObjectEnd(s, i, w); ObjectEnd(s[..k], i, w) == Within(e, e.Some? && e.value <= k)
    decreases k - i
  {
    if i < k && !Closes(w, s[i]) {
      ObjectEndCut(s, k, i + 1, Next(w, s[i]));
    }
  }

  lemma {:induction false} SkipCut(s: Text, k: nat, i: nat)
    requires i <= k <= |s|
    ensures var j := SkipSeparators(s, i); SkipSeparators(s[..k], i) == if j <= k then j else k
    decreases k - i
  {
    if i < k && IsSeparator(s[i]) { SkipCut(s, k, i + 1); }
  }

  lemma FirstObjectCut(s: Text, k: nat, i: nat)
    requires i <= k <= |s|
    ensures var x := FirstObject(s, i); FirstObject(s[..k], i) == Within(x, x.Some? && x.value.hi <= k)
  {
    var lo := SkipSeparators(s, i);
    SkipCut(s, k, i);
    if lo < k { ObjectEndCut(s, k, lo, At(0)); }
  }

  /** How many of the objects from i on end at or before k. */
  function Survivors(s: Text, k: nat, i: nat): nat
    requires i <= |s|
    decreases |s| - i
  {
    match FirstObject(s, i)
    case None => 0
    case Some(x) => if x.hi <= k then 1 + Survivors(s, k, x.hi) else 0
  }

  lemma ObjectsUnfold(s: Text, i: nat, k: nat)
    requires i <= |s|
    ensures var x := FirstObject(s, i);
            if x.None? then Objects(s, i) == [] && Survivors(s, k, i) == 0
            else
              && Objects(s, i) == [s[x.value.lo..x.value.hi]] + Objects(s, x.value.hi)
              && Survivors(s, k, i) == if x.value.hi <= k then 1 + Survivors(s, k, x.value.hi) else 0
  {
  }

  lemma {:induction false} ObjectsCut(s: Text, k: nat, i: nat)
    requires i <= k <= |s|
    ensures Survivors(s, k, i) <= |Objects(s, i)|
    ensures Objects(s[..k], i) == Objects(s, i)[..Survivors(s, k, i)]
    decreases |s| - i
  {
    FirstObjectCut(s, k, i);
    var x := FirstObject(s, i);
    if x.Some? && x.value.hi <= k {
      var hi := x.value.hi;
      ObjectsCut(s, k, hi);
      assert s[..k][x.value.lo..hi] == s[x.value.lo..hi];
    }
  }

  // ---- The start of the array ----

  lemma OccursCut(s: Text, k: nat, pat: Text, i: nat)
    requires k <= |s|
    ensures Occurs(s[..k], pat, i) <==> Occurs(s, pat, i) && i + |pat| <= k
  {
  }

  lemma {:induction false} FindCut(s: Text, k: nat, pat: Text, from: nat)
    requires k <= |s|
    ensures var r := Find(s, pat, from); Find(s[..k], pat, from) == Within(r, r.Some? && r.value + |pat| <= k)
    decreases |s| - from
  {
    OccursCut(s, k, pat, from);
    if from + |pat| <= |s| && !Occurs(s, pat, from) && from < |s| {
      FindCut(s, k, pat, from + 1);
    }
  }

  lemma ArrayStartCut(s: Text, k: nat)
    requires k <= |s|
    ensures var p := ArrayStart(s); ArrayStart(s[..k]) == Within(p, p.Some? && p.value <= k)
  {
    FindCut(s, k, FACTS_KEY, 0);
    var i := Find(s, FACTS_KEY, 0);
    if i.Some? {
      FindCut(s, k, [BRACKET], i.value);
      var j := Find(s, [BRACKET], i.value);
      if j.Some? && j.value < k { KeyBeforeBracket(s, i.value, j.value); }
    }
  }

  lemma KeyBeforeBracket(s: Text, i: nat, j: nat)
    requires Occurs(s, FACTS_KEY, i) && Occurs(s, [BRACKET], j) && i <= j
    ensures i + |FACTS_KEY| <= j
  {
    assert [BRACKET][0] == s[j];
    forall x | i <= x < i + |FACTS_KEY| ensures s[x] != BRACKET {
      assert FACTS_KEY[x - i] == s[i + (x - i)];
    }
  }

  // ---- Parsing ----

  lemma {:induction false} ParseWhileTake<F>(parse: Text -> Option<F>, texts: seq<Text>, n: nat)
    requires n <= |texts|
    ensures ParseWhile(parse, texts[..n])
         == if n <= |ParseWhile(parse, texts)| then ParseWhile(parse, texts)[..n] else ParseWhile(parse, texts)
  {
    if n > 0 {
      assert texts[..n][1..] == texts[1..][..n - 1];
      ParseWhileTake(parse, texts[1..], n - 1);
    }
  }

  /** The salvage of a cut response is exactly the parsed objects that end before the cut. */
  lemma RecoverCut<F>(s: Text, k: nat, parse: Text -> Option<F>)
    requires k <= |s|
    ensures Recover(s[..k], parse)
         == match ArrayStart(s)
            case None => []
            case Some(p) => if p <= k then ParseWhile(parse, Objects(s, p)[..Count(s, k, p)]) else []
  {
    hide ArrayStart; hide Objects; hide ParseWhile; hide Survivors; hide Recover;
    ArrayStartCut(s, k);
    RecoverUnfolds(s[..k], parse);
    var p := ArrayStart(s);
    if p.Some? && p.value <= k { ObjectsCut(s, k, p.value); }
  }

  function Count(s: Text, k: nat, i: nat): (n: nat)
    requires i <= k <= |s|
    ensures n == Survivors(s, k, i) && n <= |Objects(s, i)|
  {
    ObjectsCut(s, k, i);
    Survivors(s, k, i)
  }

  lemma {:induction false} SurvivorsMonotone(s: Text, k: nat, m: nat, i: nat)
    requires i <= |s| && k <= m
    ensures Survivors(s, k, i) <= Survivors(s, m, i)
    decreases |s| - i
  {
    var x := FirstObject(s, i);
    if x.Some? && x.value.hi <= k { SurvivorsMonotone(s, k, m, x.value.hi); }
  }

  /** A longer response never loses or changes what a shorter one already gave. */
  lemma PrefixMonotone<F>(s: Text, k: nat, m: nat, parse: Text -> Option<F>)
    requires k <= m <= |s|
    ensures Recover(s[..k], parse) <= Recover(s[..m], parse)
  {
    hide ArrayStart; hide Objects; hide ParseWhile; hide Survivors; hide Recover; hide Count;
    RecoverCut(s, k, parse);
    RecoverCut(s, m, parse);
    var p := ArrayStart(s);
    if p.Some? && p.value <= k {
      var all := Objects(s, p.value);
      SurvivorsMonotone(s, k, m, p.value);
      ParseWhileTake(parse, all, Count(s, k, p.value));
      ParseWhileTake(parse, all, Count(s, m, p.value));
    }
  }
}
