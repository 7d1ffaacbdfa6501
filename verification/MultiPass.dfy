/** Merging extraction passes: first-occurrence dedup by content key, usage and collision counts. */
module MultiPass {
  import opened Common
  import opened JsonText
  import opened ContentKey

  const U32: int := 4_294_967_296

  type u32 = x: int | 0 <= x < U32

  datatype Usage = Usage(prompt: u32, completion: u32, total: u32)

  /** `+=` on u32 fields, as compiled for release: it wraps. */
  function MergeIn(a: Usage, b: Usage): Usage {
    Usage((a.prompt + b.prompt) % U32, (a.completion + b.completion) % U32, (a.total + b.total) % U32)
  }

  datatype Call = Call(facts: seq<Fact>, usage: Option<Usage>)

  type Outcome = Result<Call>

  // ---- First-occurrence dedup ----

  function Keys(fs: seq<Fact>): set<Text> { set f | f in fs :: KeyOf(f) }

  /** fs without the facts whose key came up earlier. */
  function Dedup(fs: seq<Fact>): (r: seq<Fact>)
    ensures |r| <= |fs|
  {
    if fs == [] then []
    else
      var init, last := fs[..|fs| - 1], fs[|fs| - 1];
      if KeyOf(last) in Keys(init) then Dedup(init) else Dedup(init) + [last]
  }

  lemma DedupMore(fs: seq<Fact>, f: Fact)
    ensures Dedup(fs + [f]) == if KeyOf(f) in Keys(fs) then Dedup(fs) else Dedup(fs) + [f]
    ensures Keys(fs + [f]) == Keys(fs) + {KeyOf(f)}
  {
    assert (fs + [f])[..|fs|] == fs;
    assert forall g :: g in fs + [f] <==> g in fs || g == f;
  }

  /** No fact before j has j's key. */
  predicate IsFirst(fs: seq<Fact>, j: nat)
    requires j < |fs|
  {
    forall i :: 0 <= i < j ==> KeyOf(fs[i]) != KeyOf(fs[j])
  }

  /** Where each kept fact stood: an ascending list of exactly the first occurrences. */
  predicate FirstOccurrences(fs: seq<Fact>, kept: seq<Fact>, at: seq<nat>) {
    && |at| == |kept|
    && (forall i :: 0 <= i < |at| ==> at[i] < |fs| && kept[i] == fs[at[i]])
    && (forall i, j :: 0 <= i < j < |at| ==> at[i] < at[j])
    && (forall j :: 0 <= j < |fs| ==> (j in at <==> IsFirst(fs, j)))
  }

  lemma NewKeyIsFirst(init: seq<Fact>, f: Fact)
    ensures IsFirst(init + [f], |init|) <==> KeyOf(f) !in Keys(init)
  {
    var fs := init + [f];
    assert forall i :: 0 <= i < |init| ==> fs[i] == init[i] && init[i] in init;
    assert forall g :: g in init ==> exists i :: 0 <= i < |init| && fs[i] == g;
  }

  lemma FirstOccurrencesMore(init: seq<Fact>, f: Fact, kept: seq<Fact>, at: seq<nat>)
    requires FirstOccurrences(init, kept, at)
    ensures IsFirst(init + [f], |init|) ==> FirstOccurrences(init + [f], kept + [f], at + [|init|])
    ensures !IsFirst(init + [f], |init|) ==> FirstOccurrences(init + [f], kept, at)
  {
    hide KeyOf; hide IsFirst;
    var n := |init|;
    var fs := init + [f];
    forall j | 0 <= j < n ensures IsFirst(fs, j) <==> IsFirst(init, j) { SameFirst(init, f, j); }
    assert forall i :: 0 <= i < |at| ==> at[i] < n;
    assert n !in at;
    assert forall j :: j in at + [n] <==> j in at || j == n;
  }

  lemma SameFirst(init: seq<Fact>, f: Fact, j: nat)
    requires j < |init|
    ensures IsFirst(init + [f], j) <==> IsFirst(init, j)
  {
    assert forall i :: 0 <= i < |init| ==> (init + [f])[i] == init[i];
  }

  /** Dedup keeps exactly the first occurrence of every key, in order. */
  lemma {:induction false} DedupKeepsFirst(fs: seq<Fact>) returns (at: seq<nat>)
    ensures FirstOccurrences(fs, Dedup(fs), at)
  {
    hide FirstOccurrences; hide IsFirst; hide KeyOf;
    if fs == [] {
      at := [];
      NoOccurrences();
    } else {
      var n := |fs| - 1;
      var init := fs[..n];
      at := DedupKeepsFirst(init);
      assert fs == init + [fs[n]];
      NewKeyIsFirst(init, fs[n]);
      FirstOccurrencesMore(init, fs[n], Dedup(init), at);
      if IsFirst(init + [fs[n]], n) { at := at + [n]; }
    }
  }

  lemma NoOccurrences()
    ensures FirstOccurrences([], [], [])
  {
  }

  /** There is only one way to keep exactly the first occurrences, in order. */
  lemma {:induction false} FirstOccurrencesUnique(fs: seq<Fact>, a: seq<Fact>, at: seq<nat>, b: seq<Fact>, bt: seq<nat>)
    requires FirstOccurrences(fs, a, at) && FirstOccurrences(fs, b, bt)
    ensures a == b
  {
    assert forall j :: j in at ==> j < |fs| by { assert forall i :: 0 <= i < |at| ==> at[i] < |fs|; }
    assert forall j :: j in bt ==> j < |fs| by { assert forall i :: 0 <= i < |bt| ==> bt[i] < |fs|; }
    SameAscending(at, bt);
  }

  // ---- What the passes yielded ----

  function Tagged(fs: seq<Fact>, pass: nat, overwrite: bool): (r: seq<Fact>)
    ensures |r| == |fs|
    ensures forall i :: 0 <= i < |fs| ==> r[i] == Tag(fs[i], pass, overwrite)
  {
    seq(|fs|, i requires 0 <= i < |fs| => Tag(fs[i], pass, overwrite))
  }

  /** Deep passes always set the label; apertures only fill in a missing one. */
  function Tag(f: Fact, pass: nat, overwrite: bool): Fact {
    if overwrite || f.aperture.None? then f.(aperture := Some(pass)) else f
  }

  /** All facts of the calls that succeeded, labelled with the number of their call, in order. */
  function Yielded(outcomes: seq<Outcome>, overwrite: bool): seq<Fact> {
    if outcomes == [] then []
    else
      var n := |outcomes| - 1;
      Yielded(outcomes[..n], overwrite)
      + (match outcomes[n] case Err => [] case Ok(c) => Tagged(c.facts, n + 1, overwrite))
  }

  /** Facts reported by the calls that succeeded. */
  function RawFacts(outcomes: seq<Outcome>): nat {
    if outcomes == [] then 0
    else
      var n := |outcomes| - 1;
      RawFacts(outcomes[..n]) + (match outcomes[n] case Err => 0 case Ok(c) => |c.facts|)
  }

  /** Some successful call reported usage. */
  predicate AnyUsage(outcomes: seq<Outcome>) {
    exists i :: 0 <= i < |outcomes| && outcomes[i].Ok? && outcomes[i].value.usage.Some?
  }

  /** A field of the usage reports, added up without wrapping. */
  function UsageSum(outcomes: seq<Outcome>, field: Usage -> u32): nat {
    if outcomes == [] then 0
    else
      var n := |outcomes| - 1;
      UsageSum(outcomes[..n], field)
      + (match outcomes[n] case Err => 0 case Ok(c) => match c.usage case None => 0 case Some(u) => field(u))
  }

  const PROMPT := (u: Usage) => u.prompt
  const COMPLETION := (u: Usage) => u.completion
  const TOTAL := (u: Usage) => u.total

  /** u is the usage of the calls, each field added up modulo 2^32. */
  ghost predicate IsMergedUsage(u: Option<Usage>, outcomes: seq<Outcome>) {
    && (u.Some? <==> AnyUsage(outcomes))
    && (u.Some? ==>
          && u.value.prompt == UsageSum(outcomes, PROMPT) % 0x1_0000_0000
          && u.value.completion == UsageSum(outcomes, COMPLETION) % 0x1_0000_0000
          && u.value.total == UsageSum(outcomes, TOTAL) % 0x1_0000_0000)
  }

  lemma {:induction false} RawIsYielded(outcomes: seq<Outcome>, overwrite: bool)
    ensures |Yielded(outcomes, overwrite)| == RawFacts(outcomes)
  {
    if outcomes != [] { RawIsYielded(outcomes[..|outcomes| - 1], overwrite); }
  }

  lemma {:induction false} NoUsageSum(outcomes: seq<Outcome>, field: Usage -> u32)
    requires !AnyUsage(outcomes)
    ensures UsageSum(outcomes, field) == 0
  {
    if outcomes != [] {
      var n := |outcomes| - 1;
      assert !AnyUsage(outcomes[..n]) by {
        assert forall i :: 0 <= i < n ==> outcomes[..n][i] == outcomes[i];
      }
      NoUsageSum(outcomes[..n], field);
    }
  }

  lemma OutcomeMore(outcomes: seq<Outcome>, o: Outcome, overwrite: bool)
    ensures Yielded(outcomes + [o], overwrite)
         == Yielded(outcomes, overwrite)
            + (match o case Err => [] case Ok(c) => Tagged(c.facts, |outcomes| + 1, overwrite))
    ensures RawFacts(outcomes + [o]) == RawFacts(outcomes) + (match o case Err => 0 case Ok(c) => |c.facts|)
  {
    assert (outcomes + [o])[..|outcomes|] == outcomes;
  }

  lemma UsageMore(outcomes: seq<Outcome>, o: Outcome, field: Usage -> u32)
    ensures UsageSum(outcomes + [o], field) == UsageSum(outcomes, field)
         + (match o case Err => 0 case Ok(c) => match c.usage case None => 0 case Some(u) => field(u))
    ensures AnyUsage(outcomes + [o]) <==> AnyUsage(outcomes) || (o.Ok? && o.value.usage.Some?)
  {
    var more := outcomes + [o];
    assert more[..|outcomes|] == outcomes;
    assert more[|outcomes|] == o;
    assert forall i :: 0 <= i < |outcomes| ==> more[i] == outcomes[i];
  }

  lemma WrappedSum(a: u32, s: nat, b: u32)
    requires a == s % U32
    ensures (a + b) % U32 == (s + b) % U32
  {
  }

  lemma MergedUsageMore(u: Option<Usage>, outcomes: seq<Outcome>, o: Outcome)
    requires IsMergedUsage(u, outcomes)
    ensures IsMergedUsage(Merged(u, o), outcomes + [o])
  {
    hide UsageSum; hide AnyUsage;
    UsageMore(outcomes, o, PROMPT);
    UsageMore(outcomes, o, COMPLETION);
    UsageMore(outcomes, o, TOTAL);
    if u.None? {
      NoUsageSum(outcomes, PROMPT);
      NoUsageSum(outcomes, COMPLETION);
      NoUsageSum(outcomes, TOTAL);
    } else if o.Ok? && o.value.usage.Some? {
      var v := o.value.usage.value;
      WrappedSum(u.value.prompt, UsageSum(outcomes, PROMPT), v.prompt);
      WrappedSum(u.value.completion, UsageSum(outcomes, COMPLETION), v.completion);
      WrappedSum(u.value.total, UsageSum(outcomes, TOTAL), v.total);
    }
  }

  /** The usage after one more call. */
  function Merged(u: Option<Usage>, o: Outcome): Option<Usage> {
    if o.Err? || o.value.usage.None? then u
    else if u.None? then o.value.usage
    else Some(MergeIn(u.value, o.value.usage.value))
  }

  // ---- The merge loops ----

  datatype Extraction = Extraction(facts: seq<Fact>, usage: Option<Usage>, rawFacts: seq<nat>, collisions: nat)

  ghost predicate IsExtraction(r: Extraction, outcomes: seq<Outcome>, overwrite: bool) {
    && r.facts == Dedup(Yielded(outcomes, overwrite))
    && |r.facts| + r.collisions == RawFacts(outcomes)
    && IsMergedUsage(r.usage, outcomes)
    && |r.rawFacts| == |outcomes|
    && forall i :: 0 <= i < |outcomes| ==> r.rawFacts[i] == match outcomes[i] case Err => 0 case Ok(c) => |c.facts|
  }

  /** The innermost loop: keep the facts whose key is new. */
  method MergeFacts(facts: seq<Fact>, pass: nat, overwrite: bool, ghost before: seq<Fact>,
                    all: seq<Fact>, seen: set<Text>, collisions: nat)
      returns (all': seq<Fact>, seen': set<Text>, collisions': nat)
    requires all == Dedup(before) && seen == Keys(before) && |all| + collisions == |before|
    ensures all' == Dedup(before + Tagged(facts, pass, overwrite))
    ensures seen' == Keys(before + Tagged(facts, pass, overwrite))
    ensures |all'| + collisions' == |before| + |facts|
  {
    hide Dedup; hide Keys; hide KeyOf; hide Tag; hide Tagged;
    all', seen', collisions' := all, seen, collisions;
    ghost var done := before;
    ghost var tagged := Tagged(facts, pass, overwrite);
    assert before + tagged[..0] == before;
    for i := 0 to |facts|
      invariant done == before + tagged[..i]
      invariant all' == Dedup(done) && seen' == Keys(done) && |all'| + collisions' == |before| + i
    {
      var fact := Tag(facts[i], pass, overwrite);
      DedupMore(done, fact);
      var key := KeyOf(fact);
      if key !in seen' {
        seen' := seen' + {key};
        all' := all' + [fact];
      } else {
        collisions' := collisions' + 1;
      }
      assert tagged[..i + 1] == tagged[..i] + [fact];
      done := done + [fact];
    }
    assert tagged[..|facts|] == tagged;
  }

  /** One result of the exhaustive or deep loop. */
  method MergeOutcome(r: Extraction, seen: set<Text>, ghost outcomes: seq<Outcome>, o: Outcome, pass: nat,
                      overwrite: bool)
      returns (r': Extraction, seen': set<Text>)
    requires IsExtraction(r, outcomes, overwrite) && seen == Keys(Yielded(outcomes, overwrite))
    requires pass == |outcomes| + 1
    ensures IsExtraction(r', outcomes + [o], overwrite) && seen' == Keys(Yielded(outcomes + [o], overwrite))
  {
    hide Yielded; hide Dedup; hide Keys; hide KeyOf; hide IsMergedUsage; hide RawFacts; hide Tagged;
    OutcomeMore(outcomes, o, overwrite);
    MergedUsageMore(r.usage, outcomes, o);
    RawIsYielded(outcomes, overwrite);
    seen' := seen;
    match o
    case Ok(call) =>
      var usage := r.usage;
      if call.usage.Some? {
        if usage.None? {
          usage := call.usage;
        } else {
          usage := Some(MergeIn(usage.value, call.usage.value));
        }
      }
      var all, collisions;
      all, seen', collisions :=
        MergeFacts(call.facts, pass, overwrite, Yielded(outcomes, overwrite), r.facts, seen, r.collisions);
      r' := Extraction(all, usage, r.rawFacts + [|call.facts|], collisions);
    case Err =>
      assert Yielded(outcomes, overwrite) + [] == Yielded(outcomes, overwrite);
      r' := r.(rawFacts := r.rawFacts + [0]);
  }

  lemma NothingMerged(overwrite: bool)
    ensures IsExtraction(Extraction([], None, [], 0), [], overwrite) && Keys(Yielded([], overwrite)) == {}
  {
  }

  /** Five parallel apertures, merged in their fixed order. */
  method ExtractExhaustive(results: seq<Outcome>) returns (r: Extraction)
    ensures IsExtraction(r, results, false)
  {
    hide IsExtraction; hide Yielded; hide Keys;
    NothingMerged(false);
    var seen: set<Text> := {};
    r := Extraction([], None, [], 0);
    for i := 0 to |results|
      invariant IsExtraction(r, results[..i], false) && seen == Keys(Yielded(results[..i], false))
    {
      r, seen := MergeOutcome(r, seen, results[..i], results[i], i + 1, false);
      assert results[..i + 1] == results[..i] + [results[i]];
    }
    assert results[..|results|] == results;
  }

  function Clamp(passes: nat): nat {
    if passes < 1 then 1 else if passes > 10 then 10 else passes
  }

  const SHOWN_FACTS: int := 300

  /** The facts a pass is shown: the most recent of those kept so far. */
  function Recent(facts: seq<Fact>): (r: seq<Fact>)
    ensures |r| <= |facts| && r == facts[|facts| - |r|..]
    ensures |r| == 300 || (|r| < 300 && r == facts)
  {
    if |facts| <= SHOWN_FACTS then facts else facts[|facts| - SHOWN_FACTS..]
  }

  /** Sequential passes; each one is shown the latest facts found so far. */
  method ExtractDeep(passes: nat, call: (nat, seq<Fact>) -> Outcome) returns (r: Extraction, outcomes: seq<Outcome>)
    ensures if passes == 0 then |outcomes| == 1 else if passes <= 10 then |outcomes| == passes else |outcomes| == 10
    ensures forall i :: 0 <= i < |outcomes| ==> outcomes[i] == call(i + 1, Recent(Dedup(Yielded(outcomes[..i], true))))
    ensures IsExtraction(r, outcomes, true)
  {
    hide Dedup; hide Yielded; hide Keys; hide IsMergedUsage; hide RawFacts; hide Recent;
    NothingMerged(true);
    var seen: set<Text> := {};
    r := Extraction([], None, [], 0);
    outcomes := [];
    for n := 1 to Clamp(passes) + 1
      invariant |outcomes| == n - 1
      invariant forall i :: 0 <= i < |outcomes| ==>
          outcomes[i] == call(i + 1, Recent(Dedup(Yielded(outcomes[..i], true))))
      invariant IsExtraction(r, outcomes, true) && seen == Keys(Yielded(outcomes, true))
    {
      var o := call(n, Recent(r.facts));
      r, seen := MergeOutcome(r, seen, outcomes, o, n, true);
      ghost var before := outcomes;
      outcomes := outcomes + [o];
      assert forall i :: 0 <= i < |before| ==> outcomes[..i] == before[..i];
      assert outcomes[..|before|] == before;
    }
  }

  // ---- In the fields of the facts ----

  /** The fact without its label. */
  function Unlabelled(f: Fact): Fact { f.(aperture := None) }

  /**
    Every fact kept is one that a successful call reported, but for its label: the
    number of the call, or in an aperture the label it came with, if any.
   */
  lemma {:induction false} YieldedFrom(outcomes: seq<Outcome>, overwrite: bool, f: Fact)
    ensures f in Yielded(outcomes, overwrite) <==>
              exists i, g :: 0 <= i < |outcomes| && outcomes[i].Ok? && g in outcomes[i].value.facts
                          && Unlabelled(f) == Unlabelled(g)
                          && f.aperture == if overwrite || g.aperture == None then Some(i + 1) else g.aperture
  {
    if outcomes != [] {
      var n := |outcomes| - 1;
      YieldedFrom(outcomes[..n], overwrite, f);
      assert forall i :: 0 <= i < n ==> outcomes[..n][i] == outcomes[i];
      assert f in Yielded(outcomes, overwrite) <==>
          f in Yielded(outcomes[..n], overwrite)
          || (outcomes[n].Ok? && f in Tagged(outcomes[n].value.facts, n + 1, overwrite));
      if outcomes[n].Ok? { TaggedFrom(outcomes[n].value.facts, n + 1, overwrite, f); }
    }
  }

  lemma TaggedFrom(facts: seq<Fact>, pass: nat, overwrite: bool, f: Fact)
    ensures f in Tagged(facts, pass, overwrite) <==>
              exists g :: g in facts && Unlabelled(f) == Unlabelled(g)
                       && f.aperture == if overwrite || g.aperture == None then Some(pass) else g.aperture
  {
    if f in Tagged(facts, pass, overwrite) {
      var i :| 0 <= i < |facts| && f == Tag(facts[i], pass, overwrite);
      assert facts[i] in facts;
    }
    forall g | g in facts && Unlabelled(f) == Unlabelled(g) && f == Tag(g, pass, overwrite)
      ensures f in Tagged(facts, pass, overwrite)
    {
      var i :| 0 <= i < |facts| && facts[i] == g;
      assert Tagged(facts, pass, overwrite)[i] == f;
    }
  }

  // ---- What dedup means for the facts ----

  predicate Readable(f: Fact) { SeparatorFree(f.subject) && SeparatorFree(f.relation) }

  lemma {:induction false} DedupKeys(fs: seq<Fact>)
    ensures Keys(Dedup(fs)) == Keys(fs)
    ensures forall f :: f in Dedup(fs) ==> f in fs
  {
    hide KeyOf;
    if fs != [] {
      var n := |fs| - 1;
      DedupKeys(fs[..n]);
      assert fs == fs[..n] + [fs[n]];
      DedupMore(fs[..n], fs[n]);
      if KeyOf(fs[n]) !in Keys(fs[..n]) {
        var d := Dedup(fs[..n]);
        assert forall g :: g in d + [fs[n]] <==> g in d || g == fs[n];
      }
    }
  }

  /** Deduped facts are pairwise different triples, and no triple is lost. */
  lemma DedupByTriple(fs: seq<Fact>)
    requires forall f :: f in fs ==> Readable(f)
    ensures forall i, j :: 0 <= i < j < |Dedup(fs)| ==> !SameTriple(Dedup(fs)[i], Dedup(fs)[j])
    ensures forall f :: f in fs ==> exists g :: g in Dedup(fs) && SameTriple(f, g)
  {
    hide KeyOf; hide SameTriple; hide Dedup; hide Readable;
    var d := Dedup(fs);
    DedupKeys(fs);
    var at := DedupKeepsFirst(fs);
    forall i, j | 0 <= i < j < |d| ensures !SameTriple(d[i], d[j]) {
      assert at[j] in at;
      assert fs[at[i]] in fs && fs[at[j]] in fs;
      TripleIsKey(d[i], d[j]);
    }
    forall f | f in fs ensures exists g :: g in d && SameTriple(f, g) {
      assert KeyOf(f) in Keys(d);
      var g :| g in d && KeyOf(g) == KeyOf(f);
      TripleIsKey(f, g);
    }
  }

  lemma TripleIsKey(f: Fact, g: Fact)
    requires Readable(f) && Readable(g)
    ensures SameTriple(f, g) <==> KeyOf(f) == KeyOf(g)
  {
    KeyIsInjective(f, g);
  }
}
