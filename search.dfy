/**
 * Ranked node search (Graph.search in src/graph.ts): every node is put in at
 * most one bucket (exact, sliced or fuzzy, in that priority), each bucket is
 * sorted by its own key, and the buckets are merged into one list without
 * repeated ids, cut to a limit.
 */
module Search {
  import opened Types
  import opened Text
  import opened StringDistance
  import opened Sorting

  const DefaultLimit: int := 50
  const DefaultMaxDistance: int := 2

  datatype SlicedMatch = SlicedMatch(node: Node, field: string, index: nat)

  datatype FuzzyMatch = FuzzyMatch(node: Node, field: string, distance: nat)

  datatype SearchResult = SearchResult(exact: seq<Node>, sliced: seq<SlicedMatch>, fuzzy: seq<FuzzyMatch>, all: seq<Node>)

  // ---------------------------------------------------------------------
  // Searchable fields of a node
  // ---------------------------------------------------------------------

  /** The texts search probes, in order: id, value, then label, name and title when they are strings. */
  function Candidates(n: Node): seq<string>
  {
    [n.id, n.value] + n.extraText
  }

  /** Each candidate trimmed, in order. */
  function TrimAll(cs: seq<string>): seq<string>
  {
    seq(|cs|, i requires 0 <= i < |cs| => Trim(cs[i]))
  }

  /** The texts that are not empty, in order. */
  function NonEmpty(ts: seq<string>): seq<string>
  {
    if ts == [] then []
    else
      var t := ts[|ts| - 1];
      NonEmpty(ts[..|ts| - 1]) + (if t != [] then [t] else [])
  }

  /** The trimmed candidates that are not empty, in candidate order. */
  function TrimmedTexts(cs: seq<string>): seq<string>
  {
    NonEmpty(TrimAll(cs))
  }

  /** Every non-empty text is kept. */
  lemma {:induction false} NonEmptyComplete(ts: seq<string>)
    ensures forall k :: 0 <= k < |ts| ==> ts[k] == [] || ts[k] in NonEmpty(ts)
  {
    if ts != [] {
      var init := ts[..|ts| - 1];
      NonEmptyComplete(init);
      forall k | 0 <= k < |init| ensures ts[k] == [] || ts[k] in NonEmpty(ts) {
        assert ts[k] == init[k];
      }
    }
  }

  /** Only non-empty texts of the input are kept. */
  lemma {:induction false} NonEmptySound(ts: seq<string>)
    ensures forall f :: f in NonEmpty(ts) ==> f != [] && f in ts
  {
    if ts != [] {
      var init := ts[..|ts| - 1];
      NonEmptySound(init);
      assert ts == init + [ts[|ts| - 1]];
    }
  }

  /** One more text is kept when it is not empty. */
  lemma NonEmptyStep(ts: seq<string>, i: nat)
    requires i < |ts|
    ensures NonEmpty(ts[..i + 1]) == NonEmpty(ts[..i]) + (if ts[i] != [] then [ts[i]] else [])
  {
    assert ts[..i + 1][..i] == ts[..i];
  }

  /** Every non-blank candidate is kept, trimmed. */
  lemma TrimmedTextsComplete(cs: seq<string>)
    ensures forall k :: 0 <= k < |cs| ==> Trim(cs[k]) == [] || Trim(cs[k]) in TrimmedTexts(cs)
  {
    var ts := TrimAll(cs);
    NonEmptyComplete(ts);
    forall k | 0 <= k < |cs| ensures Trim(cs[k]) == [] || Trim(cs[k]) in TrimmedTexts(cs) {
      assert ts[k] == Trim(cs[k]);
    }
  }

  /** Everything kept is a non-empty trimmed candidate. */
  lemma TrimmedTextsSound(cs: seq<string>)
    ensures forall f :: f in TrimmedTexts(cs) ==> f != [] && exists k :: 0 <= k < |cs| && Trim(cs[k]) == f
  {
    var ts := TrimAll(cs);
    NonEmptySound(ts);
    forall f | f in TrimmedTexts(cs) ensures f != [] && exists k :: 0 <= k < |cs| && Trim(cs[k]) == f {
      var k :| 0 <= k < |ts| && ts[k] == f;
    }
  }

  /** getFields: the trimmed, non-empty candidates without repeats. */
  function SearchFields(n: Node): seq<string>
  {
    Distinct(TrimmedTexts(Candidates(n)))
  }

  /** The fields are distinct and non-empty; each is a trimmed candidate, and each non-blank candidate gives one. */
  lemma SearchFieldsFacts(n: Node)
    ensures var fs := SearchFields(n);
      && (forall i, j :: 0 <= i < j < |fs| ==> fs[i] != fs[j])
      && (forall f :: f in fs ==> f != [] && exists k :: 0 <= k < |Candidates(n)| && Trim(Candidates(n)[k]) == f)
      && (forall k :: 0 <= k < |Candidates(n)| ==> Trim(Candidates(n)[k]) == [] || Trim(Candidates(n)[k]) in fs)
  {
    TrimmedTextsComplete(Candidates(n));
    TrimmedTextsSound(Candidates(n));
  }

  /** The getFields helper: a loop that keeps the non-blank trimmed candidates, then the Set de-duplication. */
  method GetFields(n: Node) returns (fields: seq<string>)
    ensures fields == SearchFields(n)
  {
    var candidates := Candidates(n);
    ghost var trimmedAll := TrimAll(candidates);
    var out: seq<string> := [];
    var i := 0;
    while i < |candidates|
      invariant 0 <= i <= |candidates|
      invariant out == NonEmpty(trimmedAll[..i])
    {
      var trimmed := Trim(candidates[i]);
      if trimmed != [] {
        out := out + [trimmed];
      }
      assert out == NonEmpty(trimmedAll[..i + 1]) by {
        assert trimmed == trimmedAll[i];
        NonEmptyStep(trimmedAll, i);
      }
      i := i + 1;
    }
    assert trimmedAll[..i] == trimmedAll;
    fields := Distinct(out);
  }

  // ---------------------------------------------------------------------
  // Classification of one node
  // ---------------------------------------------------------------------

  datatype Class = ExactHit | SliceHit(field: string, index: nat) | FuzzyHit(field: string, distance: nat) | Miss

  /** Some field equals the query once lower-cased. */
  predicate HasExact(fields: seq<string>, q: string)
  {
    exists k :: 0 <= k < |fields| && Lower(fields[k]) == q
  }

  /** The first field at or after k whose lower-cased form contains q, or -1. */
  function FirstSliceFrom(fields: seq<string>, q: string, k: nat): (r: int)
    requires k <= |fields|
    ensures r == -1 ==> forall j :: k <= j < |fields| ==> IndexOf(Lower(fields[j]), q) == -1
    ensures r != -1 ==> k <= r < |fields| && IndexOf(Lower(fields[r]), q) >= 0
    ensures r != -1 ==> forall j :: k <= j < r ==> IndexOf(Lower(fields[j]), q) == -1
    decreases |fields| - k
  {
    if k == |fields| then -1
    else if IndexOf(Lower(fields[k]), q) != -1 then k
    else FirstSliceFrom(fields, q, k + 1)
  }

  /** The distance the fuzzy pass records for a field. */
  function FieldDistance(q: string, f: string): nat
  {
    EditDistance(q, Lower(f))
  }

  /**
   * The field at or after k with the smallest distance, the earliest one
   * when several share it.
   */
  function BestFrom(fields: seq<string>, q: string, k: nat): (m: nat)
    requires k < |fields|
    ensures k <= m < |fields|
    ensures forall j :: k <= j < |fields| ==> FieldDistance(q, fields[m]) <= FieldDistance(q, fields[j])
    ensures forall j :: k <= j < m ==> FieldDistance(q, fields[j]) > FieldDistance(q, fields[m])
    decreases |fields| - k
  {
    if k == |fields| - 1 then k
    else
      var m := BestFrom(fields, q, k + 1);
      if FieldDistance(q, fields[k]) <= FieldDistance(q, fields[m]) then k else m
  }

  /** The earliest minimum is unique: any index with both properties is BestFrom(fields, q, 0). */
  lemma BestUnique(fields: seq<string>, q: string, m: nat)
    requires m < |fields|
    requires forall j :: 0 <= j < |fields| ==> FieldDistance(q, fields[m]) <= FieldDistance(q, fields[j])
    requires forall j :: 0 <= j < m ==> FieldDistance(q, fields[j]) > FieldDistance(q, fields[m])
    ensures m == BestFrom(fields, q, 0)
  {
    var b := BestFrom(fields, q, 0);
  }

  /**
   * The bucket of a node with these fields: exact if some field equals the
   * query, else sliced on the first field that contains it, else fuzzy on the
   * nearest field when its distance is in 1..maxDistance, else none.
   */
  function Classify(fields: seq<string>, q: string, maxDistance: int): Class
  {
    if HasExact(fields, q) then ExactHit
    else
      var k := FirstSliceFrom(fields, q, 0);
      if k != -1 then SliceHit(fields[k], IndexOf(Lower(fields[k]), q))
      else FuzzyClass(fields, q, maxDistance)
  }

  /** The fuzzy verdict: the nearest field, the earliest at its distance, when that distance is in 1..maxDistance. */
  function FuzzyClass(fields: seq<string>, q: string, maxDistance: int): Class
  {
    if fields == [] then Miss
    else
      var m := BestFrom(fields, q, 0);
      var d := FieldDistance(q, fields[m]);
      if d <= maxDistance && d > 0 then FuzzyHit(fields[m], d) else Miss
  }

  /**
   * What each bucket means: exact exactly when a field equals the query; a
   * sliced entry records the first field containing the query and the index
   * of its first occurrence; a fuzzy entry records a nearest field, whose
   * distance lies in 1..maxDistance.
   */
  lemma ClassifyMeaning(fields: seq<string>, q: string, maxDistance: int)
    ensures Classify(fields, q, maxDistance) == ExactHit <==> HasExact(fields, q)
    ensures Classify(fields, q, maxDistance).SliceHit? ==>
      var c := Classify(fields, q, maxDistance);
      && !HasExact(fields, q)
      && c.index == IndexOf(Lower(c.field), q)
      && exists k :: 0 <= k < |fields| && fields[k] == c.field
           && forall j :: 0 <= j < k ==> IndexOf(Lower(fields[j]), q) == -1
    ensures Classify(fields, q, maxDistance).FuzzyHit? ==>
      var c := Classify(fields, q, maxDistance);
      && !HasExact(fields, q)
      && (forall j :: 0 <= j < |fields| ==> IndexOf(Lower(fields[j]), q) == -1)
      && 1 <= c.distance <= maxDistance
      && c.distance == FieldDistance(q, c.field)
      && c.field in fields
      && forall j :: 0 <= j < |fields| ==> c.distance <= FieldDistance(q, fields[j])
  {
    var c := Classify(fields, q, maxDistance);
    if c.SliceHit? {
      var k := FirstSliceFrom(fields, q, 0);
      assert fields[k] == c.field;
    }
  }

  /** A field unequal to the query is at distance at least one from it. */
  lemma NoExactMeansPositive(fields: seq<string>, q: string)
    requires !HasExact(fields, q)
    ensures forall j :: 0 <= j < |fields| ==> FieldDistance(q, fields[j]) >= 1
  {
    forall j | 0 <= j < |fields| ensures FieldDistance(q, fields[j]) >= 1 {
      EditDistanceZeroIff(q, Lower(fields[j]));
    }
  }

  /**
   * The body of the source's per-node loop: an exact pass, a sliced pass and
   * a fuzzy pass, each a loop over the fields that stops at its first hit.
   */
  method ClassifyNode(fields: seq<string>, query: string, maxDistance: int) returns (c: Class)
    ensures c == Classify(fields, query, maxDistance)
  {
    var exact := ExactPass(fields, query);
    if exact {
      return ExactHit;
    }
    var k := SlicePass(fields, query);
    if k != -1 {
      return SliceHit(fields[k], IndexOf(Lower(fields[k]), query));
    }
    c := FuzzyPass(fields, query, maxDistance);
  }

  /** The exact pass: does some field equal the query once lower-cased? */
  method ExactPass(fields: seq<string>, query: string) returns (found: bool)
    ensures found <==> HasExact(fields, query)
  {
    var k := 0;
    while k < |fields|
      invariant 0 <= k <= |fields|
      invariant forall j :: 0 <= j < k ==> Lower(fields[j]) != query
    {
      if Lower(fields[k]) == query {
        return true;
      }
      k := k + 1;
    }
    return false;
  }

  /** The sliced pass: the first field whose lower-cased form contains the query, or -1. */
  method SlicePass(fields: seq<string>, query: string) returns (k: int)
    ensures k == FirstSliceFrom(fields, query, 0)
  {
    k := 0;
    while k < |fields|
      invariant 0 <= k <= |fields|
      invariant FirstSliceFrom(fields, query, k) == FirstSliceFrom(fields, query, 0)
    {
      var idx := IndexOf(Lower(fields[k]), query);
      if idx != -1 {
        return;
      }
      k := k + 1;
    }
    k := -1;
  }

  /**
   * The scan of the fuzzy pass may stop early: a field at distance 1 that is
   * the earliest minimum of the fields seen so far is the nearest of all,
   * when no field matches exactly.
   */
  lemma BestFoundEarly(fields: seq<string>, q: string, m: nat, k: nat)
    requires !HasExact(fields, q)
    requires m < k <= |fields|
    requires k < |fields| ==> FieldDistance(q, fields[m]) == 1
    requires forall j :: 0 <= j < k ==> FieldDistance(q, fields[m]) <= FieldDistance(q, fields[j])
    requires forall j :: 0 <= j < m ==> FieldDistance(q, fields[j]) > FieldDistance(q, fields[m])
    ensures m == BestFrom(fields, q, 0)
  {
    NoExactMeansPositive(fields, q);
    BestUnique(fields, q, m);
  }

  /**
   * The fuzzy pass, once no field equals or contains the query: the nearest
   * field, the earliest at its distance, stopping as soon as it has seen
   * distance 1; a hit only for a distance in 1..maxDistance.
   */
  method FuzzyPass(fields: seq<string>, query: string, maxDistance: int) returns (c: Class)
    requires !HasExact(fields, query)
    ensures c == FuzzyClass(fields, query, maxDistance)
  {
    NoExactMeansPositive(fields, query);
    var bestDistance: nat := 0;
    var bestField: Option<string> := None;
    ghost var bestIndex := 0;
    var k := 0;
    while k < |fields|
      invariant 0 <= k <= |fields|
      invariant bestField.None? <==> k == 0
      invariant k > 0 ==> && bestIndex < k && bestField == Some(fields[bestIndex])
                          && bestDistance == FieldDistance(query, fields[bestIndex])
                          && (forall j :: 0 <= j < k ==> bestDistance <= FieldDistance(query, fields[j]))
                          && (forall j :: 0 <= j < bestIndex ==> FieldDistance(query, fields[j]) > bestDistance)
    {
      var dist := Levenshtein(query, Lower(fields[k]));
      assert dist == FieldDistance(query, fields[k]);
      if bestField.None? || dist < bestDistance {
        bestDistance := dist;
        bestField := Some(fields[k]);
        bestIndex := k;
      }
      k := k + 1;
      if bestDistance == 1 {
        break;
      }
    }
    if bestField.Some? {
      BestFoundEarly(fields, query, bestIndex, k);
    }
    if bestField.Some? && bestDistance <= maxDistance && bestDistance > 0 {
      c := FuzzyHit(bestField.value, bestDistance);
    } else {
      c := Miss;
    }
  }

  // ---------------------------------------------------------------------
  // Buckets, ordering and merge
  // ---------------------------------------------------------------------

  datatype Buckets = Buckets(exact: seq<Node>, sliced: seq<SlicedMatch>, fuzzy: seq<FuzzyMatch>)

  /** The bucket a node of this class goes to, appended at its end. */
  function Push(b: Buckets, n: Node, c: Class): Buckets
  {
    match c
    case ExactHit => b.(exact := b.exact + [n])
    case SliceHit(f, i) => b.(sliced := b.sliced + [SlicedMatch(n, f, i)])
    case FuzzyHit(f, d) => b.(fuzzy := b.fuzzy + [FuzzyMatch(n, f, d)])
    case Miss => b
  }

  /** The buckets after visiting the nodes in order, each classified by cls. */
  function CollectBy(nodes: seq<Node>, cls: Node -> Class): Buckets
  {
    if nodes == [] then Buckets([], [], [])
    else Push(CollectBy(nodes[..|nodes| - 1], cls), nodes[|nodes| - 1], cls(nodes[|nodes| - 1]))
  }

  /** How search classifies a node: by its fields, against the query. */
  function Classifier(q: string, maxDistance: int): Node -> Class
  {
    (n: Node) => Classify(SearchFields(n), q, maxDistance)
  }

  /** The unsorted buckets after visiting the nodes in order. */
  function Collect(nodes: seq<Node>, q: string, maxDistance: int): Buckets
  {
    CollectBy(nodes, Classifier(q, maxDistance))
  }

  /** The buckets after pushing each node on the bucket of the class given for it. */
  function PushAll(nodes: seq<Node>, classes: seq<Class>): Buckets
    requires |nodes| == |classes|
  {
    if nodes == [] then Buckets([], [], [])
    else Push(PushAll(nodes[..|nodes| - 1], classes[..|nodes| - 1]), nodes[|nodes| - 1], classes[|nodes| - 1])
  }

  /** One more node and its class push the node on that class's bucket. */
  lemma PushAllStep(nodes: seq<Node>, classes: seq<Class>, i: nat, c: Class)
    requires i < |nodes| && |classes| == i
    ensures PushAll(nodes[..i + 1], classes + [c]) == Push(PushAll(nodes[..i], classes), nodes[i], c)
  {
    assert nodes[..i + 1][..i] == nodes[..i] && (classes + [c])[..i] == classes;
  }

  /** The class of each node, in order. */
  function ClassesOf(nodes: seq<Node>, q: string, maxDistance: int): (cs: seq<Class>)
    ensures |cs| == |nodes|
  {
    if nodes == [] then []
    else ClassesOf(nodes[..|nodes| - 1], q, maxDistance) + [Classify(SearchFields(nodes[|nodes| - 1]), q, maxDistance)]
  }

  /** Pushing each node with its class gives the unsorted buckets. */
  lemma {:induction false} CollectIsPushAll(nodes: seq<Node>, q: string, maxDistance: int)
    ensures Collect(nodes, q, maxDistance) == PushAll(nodes, ClassesOf(nodes, q, maxDistance))
  {
    if nodes != [] {
      var n := |nodes| - 1;
      CollectIsPushAll(nodes[..n], q, maxDistance);
      assert ClassesOf(nodes, q, maxDistance)[..n] == ClassesOf(nodes[..n], q, maxDistance);
    }
  }

  /** The exact bucket compares ids only. */
  function ExactKey(n: Node): Key { Key(0, 0, n.id) }

  /** The sliced bucket: match index, then field length, then id. */
  function SlicedKey(m: SlicedMatch): Key { Key(m.index, |m.field|, m.node.id) }

  /** The fuzzy bucket: distance, then field length, then id. */
  function FuzzyKey(m: FuzzyMatch): Key { Key(m.distance, |m.field|, m.node.id) }

  function SlicedNodes(ms: seq<SlicedMatch>): seq<Node>
  {
    seq(|ms|, i requires 0 <= i < |ms| => ms[i].node)
  }

  function FuzzyNodes(ms: seq<FuzzyMatch>): seq<Node>
  {
    seq(|ms|, i requires 0 <= i < |ms| => ms[i].node)
  }

  function Ids(ns: seq<Node>): set<string>
  {
    set n | n in ns :: n.id
  }

  /** acc followed by the nodes of ns whose id is not yet present, each the first with its id. */
  function AddUnseen(acc: seq<Node>, ns: seq<Node>): seq<Node>
  {
    if ns == [] then acc
    else
      var a := AddUnseen(acc, ns[..|ns| - 1]);
      var n := ns[|ns| - 1];
      if n.id in Ids(a) then a else a + [n]
  }

  /** The `seen`-set merge: the first node for each id, in order. */
  function DistinctById(ns: seq<Node>): seq<Node>
  {
    AddUnseen([], ns)
  }

  /** Array.prototype.slice(0, limit); a negative limit counts from the end. */
  function Limit(s: seq<Node>, limit: int): (r: seq<Node>)
    ensures |r| <= |s| && r == s[..|r|]
    ensures limit >= 0 ==> |r| == Min(limit, |s|)
    ensures limit < 0 ==> |r| == Max(0, |s| + limit)
  {
    if limit >= 0 then s[..if limit <= |s| then limit else |s|]
    else s[..if |s| + limit >= 0 then |s| + limit else 0]
  }

  /** The sliced entries whose node made it into the limited list. */
  function KeepSliced(ms: seq<SlicedMatch>, all: seq<Node>): seq<SlicedMatch>
  {
    Filter(ms, (m: SlicedMatch) => m.node in all)
  }

  /** The fuzzy entries whose node made it into the limited list. */
  function KeepFuzzy(ms: seq<FuzzyMatch>, all: seq<Node>): seq<FuzzyMatch>
  {
    Filter(ms, (m: FuzzyMatch) => m.node in all)
  }

  /** The lower-cased, trimmed query. */
  function NormalizeQuery(rawQuery: string): string
  {
    Lower(Trim(rawQuery))
  }

  /** The three buckets, each sorted by its comparator. */
  function SortedBuckets(nodes: seq<Node>, q: string, maxDistance: int): Buckets
  {
    var b := Collect(nodes, q, maxDistance);
    Buckets(SortBy(b.exact, ExactKey), SortBy(b.sliced, SlicedKey), SortBy(b.fuzzy, FuzzyKey))
  }

  /** The nodes of the buckets in priority order, before de-duplication. */
  function Merged(b: Buckets): seq<Node>
  {
    b.exact + SlicedNodes(b.sliced) + FuzzyNodes(b.fuzzy)
  }

  /** The whole of Graph.search over a node list, with the options resolved. */
  function SearchSpec(nodes: seq<Node>, rawQuery: string, limit: int, maxDistance: int): SearchResult
  {
    var q := NormalizeQuery(rawQuery);
    if q == [] then SearchResult([], [], [], [])
    else
      var b := SortedBuckets(nodes, q, maxDistance);
      var all := Limit(DistinctById(Merged(b)), limit);
      SearchResult(b.exact, KeepSliced(b.sliced, all), KeepFuzzy(b.fuzzy, all), all)
  }

  function OrDefault(o: Option<int>, d: int): int
  {
    if o.Some? then o.value else d
  }

  /** One pass of the source's merge loop: append the nodes whose id has not been seen. */
  method AppendUnseen(all: seq<Node>, seen: set<string>, ns: seq<Node>) returns (all': seq<Node>, seen': set<string>)
    requires seen == Ids(all)
    ensures all' == AddUnseen(all, ns)
    ensures seen' == Ids(all')
  {
    all', seen' := all, seen;
    var i := 0;
    while i < |ns|
      invariant 0 <= i <= |ns|
      invariant all' == AddUnseen(all, ns[..i])
      invariant seen' == Ids(all')
    {
      var n := ns[i];
      assert ns[..i + 1][..i] == ns[..i];
      if n.id !in seen' {
        all' := all' + [n];
        seen' := seen' + {n.id};
      }
      i := i + 1;
    }
    assert ns[..i] == ns;
  }

  /** The source's loop over the nodes: classify each and push it on its bucket. */
  method CollectBuckets(nodes: seq<Node>, query: string, maxDistance: int) returns (b: Buckets)
    ensures b == Collect(nodes, query, maxDistance)
  {
    var exact: seq<Node> := [];
    var sliced: seq<SlicedMatch> := [];
    var fuzzy: seq<FuzzyMatch> := [];
    ghost var classes: seq<Class> := [];
    var i := 0;
    while i < |nodes|
      invariant 0 <= i <= |nodes|
      invariant classes == ClassesOf(nodes[..i], query, maxDistance)
      invariant Buckets(exact, sliced, fuzzy) == PushAll(nodes[..i], classes)
    {
      var node := nodes[i];
      var c := NodeClass(node, query, maxDistance);
      exact, sliced, fuzzy := PushMatch(exact, sliced, fuzzy, node, c);
      PushAllStep(nodes, classes, i, c);
      assert nodes[..i + 1][..i] == nodes[..i];
      classes := classes + [c];
      i := i + 1;
    }
    assert nodes[..i] == nodes;
    CollectIsPushAll(nodes, query, maxDistance);
    b := Buckets(exact, sliced, fuzzy);
  }

  /** The class of one node of the source's loop: its fields, classified against the query. */
  method NodeClass(node: Node, query: string, maxDistance: int) returns (c: Class)
    ensures c == Classify(SearchFields(node), query, maxDistance)
  {
    var fields := GetFields(node);
    c := ClassifyNode(fields, query, maxDistance);
  }

  /** One step of the source's loop: the node goes on the end of the bucket of its class, a miss nowhere. */
  method PushMatch(exact: seq<Node>, sliced: seq<SlicedMatch>, fuzzy: seq<FuzzyMatch>, node: Node, c: Class)
    returns (exact': seq<Node>, sliced': seq<SlicedMatch>, fuzzy': seq<FuzzyMatch>)
    ensures Buckets(exact', sliced', fuzzy') == Push(Buckets(exact, sliced, fuzzy), node, c)
  {
    exact', sliced', fuzzy' := exact, sliced, fuzzy;
    match c {
      case ExactHit => exact' := exact + [node];
      case SliceHit(f, idx) => sliced' := sliced + [SlicedMatch(node, f, idx)];
      case FuzzyHit(f, d) => fuzzy' := fuzzy + [FuzzyMatch(node, f, d)];
      case Miss =>
    }
  }

  /** The merge: exact, then sliced, then fuzzy nodes, skipping ids already seen. */
  method MergeBuckets(exact: seq<Node>, sliced: seq<SlicedMatch>, fuzzy: seq<FuzzyMatch>) returns (all: seq<Node>)
    ensures all == DistinctById(exact + SlicedNodes(sliced) + FuzzyNodes(fuzzy))
  {
    var seen: set<string> := {};
    all := [];
    all, seen := AppendUnseen(all, seen, exact);
    all, seen := AppendUnseen(all, seen, SlicedNodes(sliced));
    all, seen := AppendUnseen(all, seen, FuzzyNodes(fuzzy));
    AddUnseenConcat([], exact, SlicedNodes(sliced));
    AddUnseenConcat([], exact + SlicedNodes(sliced), FuzzyNodes(fuzzy));
  }

  /** Graph.search over the given nodes; absent options take their defaults (50 and 2). */
  method SearchNodes(nodes: seq<Node>, rawQuery: string, limitOption: Option<int>, maxDistanceOption: Option<int>)
    returns (r: SearchResult)
    ensures r == SearchSpec(nodes, rawQuery, OrDefault(limitOption, DefaultLimit), OrDefault(maxDistanceOption, DefaultMaxDistance))
  {
    var query := NormalizeQuery(rawQuery);
    var limit := OrDefault(limitOption, DefaultLimit);
    var maxDistance := OrDefault(maxDistanceOption, DefaultMaxDistance);
    if query == [] {
      return SearchResult([], [], [], []);
    }
    var b := CollectBuckets(nodes, query, maxDistance);
    var exact := SortBy(b.exact, ExactKey);
    var sliced := SortBy(b.sliced, SlicedKey);
    var fuzzy := SortBy(b.fuzzy, FuzzyKey);
    assert Buckets(exact, sliced, fuzzy) == SortedBuckets(nodes, query, maxDistance);
    var all := MergeBuckets(exact, sliced, fuzzy);
    var limitedAll := Limit(all, limit);
    r := SearchResult(exact, KeepSliced(sliced, limitedAll), KeepFuzzy(fuzzy, limitedAll), limitedAll);
  }

  lemma {:induction false} AddUnseenConcat(acc: seq<Node>, s1: seq<Node>, s2: seq<Node>)
    ensures AddUnseen(AddUnseen(acc, s1), s2) == AddUnseen(acc, s1 + s2)
    decreases |s2|
  {
    if s2 == [] {
      assert s1 + s2 == s1;
    } else {
      AddUnseenConcat(acc, s1, s2[..|s2| - 1]);
      assert (s1 + s2)[..|s1 + s2| - 1] == s1 + s2[..|s2| - 1];
    }
  }

  // ---------------------------------------------------------------------
  // Properties of the search
  // ---------------------------------------------------------------------

  /** A blank query (empty or all white space) finds nothing. */
  lemma SearchBlankQuery(nodes: seq<Node>, rawQuery: string, limit: int, maxDistance: int)
    requires forall i :: 0 <= i < |rawQuery| ==> IsSpace(rawQuery[i])
    ensures SearchSpec(nodes, rawQuery, limit, maxDistance) == SearchResult([], [], [], [])
  {
    assert Trim(rawQuery) == [];
  }

  /**
   * The buckets hold exactly the nodes of each class: a node is in the exact
   * bucket iff it is classified exact, and a sliced or fuzzy entry is present
   * iff its node is classified that way with that field.
   */
  lemma {:induction false} CollectByMembership(nodes: seq<Node>, cls: Node -> Class)
    ensures var b := CollectBy(nodes, cls);
      && (forall n :: n in b.exact <==> n in nodes && cls(n) == ExactHit)
      && (forall m :: m in b.sliced <==> m.node in nodes && cls(m.node) == SliceHit(m.field, m.index))
      && (forall m :: m in b.fuzzy <==> m.node in nodes && cls(m.node) == FuzzyHit(m.field, m.distance))
  {
    if nodes != [] {
      var init := nodes[..|nodes| - 1];
      CollectByMembership(init, cls);
      assert nodes == init + [nodes[|nodes| - 1]];
    }
  }

  /** The unsorted buckets of search hold exactly the nodes of each class. */
  lemma CollectMembership(nodes: seq<Node>, q: string, maxDistance: int)
    ensures var b := Collect(nodes, q, maxDistance);
      && (forall n :: n in b.exact <==> n in nodes && Classify(SearchFields(n), q, maxDistance) == ExactHit)
      && (forall m :: m in b.sliced <==> m.node in nodes && Classify(SearchFields(m.node), q, maxDistance) == SliceHit(m.field, m.index))
      && (forall m :: m in b.fuzzy <==> m.node in nodes && Classify(SearchFields(m.node), q, maxDistance) == FuzzyHit(m.field, m.distance))
  {
    CollectByMembership(nodes, Classifier(q, maxDistance));
  }

  /** The id order of the exact bucket and the (rank, length, id) order of the other two survive filtering. */
  lemma {:induction false} FilterSorted<T(!new)>(xs: seq<T>, p: T -> bool, key: T -> Key)
    requires SortedBy(xs, key)
    ensures SortedBy(Filter(xs, p), key)
  {
    if xs != [] {
      var t := xs[1..];
      assert SortedBy(t, key) by {
        forall i, j | 0 <= i < j < |t| ensures KeyLe(key(t[i]), key(t[j])) {
          assert t[i] == xs[i + 1] && t[j] == xs[j + 1];
        }
      }
      FilterSorted(t, p, key);
      if p(xs[0]) {
        var rest := Filter(t, p);
        forall j | 0 <= j < |rest| ensures KeyLe(key(xs[0]), key(rest[j])) {
          assert rest[j] in t;
          var k :| 0 <= k < |t| && t[k] == rest[j];
          assert xs[k + 1] == rest[j];
        }
        SortedCons(xs[0], rest, key);
      } else {
        assert Filter(xs, p) == Filter(t, p);
      }
    }
  }

  /** Each returned bucket is ordered by its comparator. */
  lemma SearchSorted(nodes: seq<Node>, rawQuery: string, limit: int, maxDistance: int)
    ensures var r := SearchSpec(nodes, rawQuery, limit, maxDistance);
      SortedBy(r.exact, ExactKey) && SortedBy(r.sliced, SlicedKey) && SortedBy(r.fuzzy, FuzzyKey)
  {
    var q := NormalizeQuery(rawQuery);
    if q != [] {
      var b := Collect(nodes, q, maxDistance);
      var sliced := SortBy(b.sliced, SlicedKey);
      var fuzzy := SortBy(b.fuzzy, FuzzyKey);
      var r := SearchSpec(nodes, rawQuery, limit, maxDistance);
      FilterSorted(sliced, (m: SlicedMatch) => m.node in r.all, SlicedKey);
      FilterSorted(fuzzy, (m: FuzzyMatch) => m.node in r.all, FuzzyKey);
    }
  }

  /**
   * The filter of the returned buckets drops nothing it should keep: every
   * entry whose node is classified that way and made it into `all` is returned.
   */
  lemma SearchEntriesComplete(nodes: seq<Node>, rawQuery: string, limit: int, maxDistance: int)
    ensures var r := SearchSpec(nodes, rawQuery, limit, maxDistance);
      var q := NormalizeQuery(rawQuery);
      && (forall m: SlicedMatch :: m.node in nodes && m.node in r.all && Classify(SearchFields(m.node), q, maxDistance) == SliceHit(m.field, m.index) ==> m in r.sliced)
      && (forall m: FuzzyMatch :: m.node in nodes && m.node in r.all && Classify(SearchFields(m.node), q, maxDistance) == FuzzyHit(m.field, m.distance) ==> m in r.fuzzy)
  {
    var q := NormalizeQuery(rawQuery);
    if q != [] {
      var b := Collect(nodes, q, maxDistance);
      CollectMembership(nodes, q, maxDistance);
      SortByMembers(b.sliced, SlicedKey);
      SortByMembers(b.fuzzy, FuzzyKey);
    }
  }

  /**
   * The exact bucket is every node with a field equal to the query (it is
   * not cut by the limit); a sliced or fuzzy entry is returned exactly when
   * its node is a node of the graph in `all` classified that way.
   */
  lemma SearchBuckets(nodes: seq<Node>, rawQuery: string, limit: int, maxDistance: int)
    ensures var r := SearchSpec(nodes, rawQuery, limit, maxDistance);
      var q := NormalizeQuery(rawQuery);
      && (forall n :: n in r.exact <==> q != [] && n in nodes && HasExact(SearchFields(n), q))
      && (forall m :: m in r.sliced ==> m.node in nodes && m.node in r.all && Classify(SearchFields(m.node), q, maxDistance) == SliceHit(m.field, m.index))
      && (forall m :: m in r.fuzzy ==> m.node in nodes && m.node in r.all && Classify(SearchFields(m.node), q, maxDistance) == FuzzyHit(m.field, m.distance))
      && (forall m: SlicedMatch :: m.node in nodes && m.node in r.all && Classify(SearchFields(m.node), q, maxDistance) == SliceHit(m.field, m.index) ==> m in r.sliced)
      && (forall m: FuzzyMatch :: m.node in nodes && m.node in r.all && Classify(SearchFields(m.node), q, maxDistance) == FuzzyHit(m.field, m.distance) ==> m in r.fuzzy)
  {
    SearchEntriesComplete(nodes, rawQuery, limit, maxDistance);
    var q := NormalizeQuery(rawQuery);
    if q != [] {
      var b := Collect(nodes, q, maxDistance);
      CollectMembership(nodes, q, maxDistance);
      var exact := SortBy(b.exact, ExactKey);
      var sliced := SortBy(b.sliced, SlicedKey);
      var fuzzy := SortBy(b.fuzzy, FuzzyKey);
      forall n ensures n in exact <==> n in b.exact {
        assert n in exact <==> n in multiset(exact);
        assert n in b.exact <==> n in multiset(b.exact);
      }
      forall n ensures Classify(SearchFields(n), q, maxDistance) == ExactHit <==> HasExact(SearchFields(n), q) {
        ClassifyMeaning(SearchFields(n), q, maxDistance);
      }
      forall m | m in sliced ensures m in b.sliced {
        assert m in multiset(sliced);
      }
      forall m | m in fuzzy ensures m in b.fuzzy {
        assert m in multiset(fuzzy);
      }
    }
  }

  /** Adding unseen nodes keeps the accumulated prefix, adds only input nodes, and covers every input id. */
  lemma {:induction false} AddUnseenGrows(acc: seq<Node>, ns: seq<Node>)
    ensures var r := AddUnseen(acc, ns);
      && (forall n :: n in r ==> n in acc || n in ns)
      && Ids(r) == Ids(acc) + Ids(ns)
      && |acc| <= |r| && r[..|acc|] == acc
  {
    if ns != [] {
      var init := ns[..|ns| - 1];
      var n := ns[|ns| - 1];
      AddUnseenGrows(acc, init);
      var a := AddUnseen(acc, init);
      assert ns == init + [n];
      assert Ids(ns) == Ids(init) + {n.id};
      if n.id !in Ids(a) {
        assert Ids(a + [n]) == Ids(a) + {n.id};
      }
    }
  }

  /** Adding unseen nodes to a list with distinct ids keeps the ids distinct. */
  lemma {:induction false} AddUnseenDistinct(acc: seq<Node>, ns: seq<Node>)
    requires forall i, j :: 0 <= i < j < |acc| ==> acc[i].id != acc[j].id
    ensures var r := AddUnseen(acc, ns); forall i, j :: 0 <= i < j < |r| ==> r[i].id != r[j].id
  {
    if ns != [] {
      var init := ns[..|ns| - 1];
      var n := ns[|ns| - 1];
      AddUnseenDistinct(acc, init);
      var a := AddUnseen(acc, init);
      assert forall i, j :: 0 <= i < j < |AddUnseen(acc, init)| ==> AddUnseen(acc, init)[i].id != AddUnseen(acc, init)[j].id;
      assert forall i, j :: 0 <= i < j < |a| ==> a[i].id != a[j].id;
      if n.id !in Ids(a) {
        var r := a + [n];
        assert AddUnseen(acc, ns) == r;
        forall i, j | 0 <= i < j < |r| ensures r[i].id != r[j].id {
          if j == |a| {
            assert r[i] == a[i] && a[i] in a;
          } else {
            assert r[i] == a[i] && r[j] == a[j];
          }
        }
      } else {
        assert AddUnseen(acc, ns) == a;
      }
    }
  }

  /** What adding unseen nodes keeps: the ids stay distinct, and nothing comes from elsewhere. */
  lemma AddUnseenFacts(acc: seq<Node>, ns: seq<Node>)
    requires forall i, j :: 0 <= i < j < |acc| ==> acc[i].id != acc[j].id
    ensures var r := AddUnseen(acc, ns);
      && (forall i, j :: 0 <= i < j < |r| ==> r[i].id != r[j].id)
      && (forall n :: n in r ==> n in acc || n in ns)
      && Ids(r) == Ids(acc) + Ids(ns)
      && |acc| <= |r| && r[..|acc|] == acc
  {
    AddUnseenGrows(acc, ns);
    AddUnseenDistinct(acc, ns);
  }

  /** The first node of a non-empty list is first in its id de-duplication. */
  lemma {:induction false} DistinctByIdFirst(ns: seq<Node>)
    requires ns != []
    ensures DistinctById(ns) != [] && DistinctById(ns)[0] == ns[0]
  {
    var init := ns[..|ns| - 1];
    if |ns| == 1 {
      assert init == [];
      assert Ids(AddUnseen([], init)) == {};
    } else {
      DistinctByIdFirst(init);
      assert init[0] == ns[0];
    }
  }

  /** n is at index i of ns, and no node before it has its id. */
  predicate FirstWithIdAt(ns: seq<Node>, n: Node, i: int)
  {
    0 <= i < |ns| && ns[i] == n && forall j :: 0 <= j < i ==> ns[j].id != n.id
  }

  /** The de-duplication keeps exactly the first node of each id. */
  lemma {:induction false} DistinctByIdMembers(ns: seq<Node>)
    ensures forall n :: n in DistinctById(ns) <==> exists i :: FirstWithIdAt(ns, n, i)
  {
    if ns != [] {
      var init, last := ns[..|ns| - 1], ns[|ns| - 1];
      var a := DistinctById(init);
      DistinctByIdMembers(init);
      AddUnseenGrows([], init);
      assert Ids(a) == Ids(init);
      forall n ensures n in DistinctById(ns) <==> exists i :: FirstWithIdAt(ns, n, i) {
        if exists i :: FirstWithIdAt(init, n, i) {
          var i :| FirstWithIdAt(init, n, i);
          assert FirstWithIdAt(ns, n, i);
        }
        if exists i :: FirstWithIdAt(ns, n, i) {
          var i :| FirstWithIdAt(ns, n, i);
          if i < |init| {
            assert FirstWithIdAt(init, n, i);
          } else if last.id in Ids(init) {
            assert false;
          }
        }
        if last.id !in Ids(init) && n == last {
          forall j | 0 <= j < |init| ensures ns[j].id != n.id {
            assert init[j] in init;
          }
          assert FirstWithIdAt(ns, n, |init|);
        }
      }
    }
  }

  /** The de-duplication keeps the input order: earlier in the result means earlier in the input. */
  lemma {:induction false} DistinctByIdOrder(ns: seq<Node>)
    ensures var r := DistinctById(ns);
      forall p, q :: 0 <= p < q < |r| ==> exists i, j :: 0 <= i < j < |ns| && ns[i] == r[p] && ns[j] == r[q]
  {
    if ns != [] {
      var init, last := ns[..|ns| - 1], ns[|ns| - 1];
      var a := DistinctById(init);
      DistinctByIdOrder(init);
      AddUnseenGrows([], init);
      var r := DistinctById(ns);
      forall p, q | 0 <= p < q < |r| ensures exists i, j :: 0 <= i < j < |ns| && ns[i] == r[p] && ns[j] == r[q] {
        if q < |a| {
          assert r[p] == a[p] && r[q] == a[q];
          var i, j :| 0 <= i < j < |init| && init[i] == a[p] && init[j] == a[q];
          assert ns[i] == r[p] && ns[j] == r[q];
        } else {
          assert r[p] == a[p] && a[p] in a && r[q] == last;
          var i :| 0 <= i < |init| && init[i] == a[p];
          assert ns[i] == r[p] && ns[|ns| - 1] == r[q];
        }
      }
    }
  }

  /**
   * The merged list: no id repeats, every node comes from the graph, it
   * holds at most `limit` nodes when the limit is not negative, and it
   * starts with the first exact match whenever there is one and the limit
   * is positive.
   */
  lemma SearchAll(nodes: seq<Node>, rawQuery: string, limit: int, maxDistance: int)
    ensures var r := SearchSpec(nodes, rawQuery, limit, maxDistance);
      && (forall i, j :: 0 <= i < j < |r.all| ==> r.all[i].id != r.all[j].id)
      && (forall n :: n in r.all ==> n in nodes)
      && (limit >= 0 ==> |r.all| <= limit)
      && (r.exact != [] && limit > 0 ==> r.all != [] && r.all[0] == r.exact[0])
  {
    var q := NormalizeQuery(rawQuery);
    if q != [] {
      var b := SortedBuckets(nodes, q, maxDistance);
      MergedFromNodes(nodes, q, maxDistance);
      LimitedMergeFacts(Merged(b), limit);
    }
  }

  /** The de-duplicated, limited list: distinct ids, drawn from its input, within the limit, first element kept. */
  lemma LimitedMergeFacts(merged: seq<Node>, limit: int)
    ensures var all := Limit(DistinctById(merged), limit);
      && (forall i, j :: 0 <= i < j < |all| ==> all[i].id != all[j].id)
      && (forall n :: n in all ==> n in merged)
      && (limit >= 0 ==> |all| <= limit)
      && (merged != [] && limit > 0 ==> all != [] && all[0] == merged[0])
  {
    var d := DistinctById(merged);
    var all := Limit(d, limit);
    AddUnseenFacts([], merged);
    assert all == d[..|all|];
    forall i, j | 0 <= i < j < |all| ensures all[i].id != all[j].id {
      assert all[i] == d[i] && all[j] == d[j];
    }
    forall n | n in all ensures n in merged {
      var i :| 0 <= i < |all| && all[i] == n;
      assert d[i] == n;
    }
    if merged != [] && limit > 0 {
      DistinctByIdFirst(merged);
    }
  }

  /** The unsorted buckets hold only nodes of the graph. */
  lemma CollectFromNodes(nodes: seq<Node>, q: string, maxDistance: int)
    ensures var b := Collect(nodes, q, maxDistance);
      && (forall n :: n in b.exact ==> n in nodes)
      && (forall m :: m in b.sliced ==> m.node in nodes)
      && (forall m :: m in b.fuzzy ==> m.node in nodes)
  {
    CollectMembership(nodes, q, maxDistance);
  }

  /** Every node the buckets hold is a node of the graph. */
  lemma MergedFromNodes(nodes: seq<Node>, q: string, maxDistance: int)
    ensures forall n :: n in Merged(SortedBuckets(nodes, q, maxDistance)) ==> n in nodes
  {
    var c := Collect(nodes, q, maxDistance);
    var b := SortedBuckets(nodes, q, maxDistance);
    CollectFromNodes(nodes, q, maxDistance);
    SortByMembers(c.exact, ExactKey);
    SortByMembers(c.sliced, SlicedKey);
    SortByMembers(c.fuzzy, FuzzyKey);
    MergedMembers(b);
  }

  /** Sorting keeps exactly the elements it was given. */
  lemma SortByMembers<T>(xs: seq<T>, key: T -> Key)
    ensures forall x :: x in SortBy(xs, key) <==> x in xs
  {
    forall x ensures x in SortBy(xs, key) <==> x in xs {
      assert x in SortBy(xs, key) <==> x in multiset(SortBy(xs, key));
      assert x in xs <==> x in multiset(xs);
    }
  }

  /** A merged node is an exact node or the node of a sliced or fuzzy entry. */
  lemma MergedMembers(b: Buckets)
    ensures forall n :: n in Merged(b) ==>
      n in b.exact || (exists m :: m in b.sliced && m.node == n) || (exists m :: m in b.fuzzy && m.node == n)
  {
    var sn, fn := SlicedNodes(b.sliced), FuzzyNodes(b.fuzzy);
    assert Merged(b) == b.exact + sn + fn;
    forall n | n in Merged(b)
      ensures n in b.exact || (exists m :: m in b.sliced && m.node == n) || (exists m :: m in b.fuzzy && m.node == n)
    {
      if n in sn {
        var i :| 0 <= i < |sn| && sn[i] == n;
        assert b.sliced[i] in b.sliced;
      } else if n in fn {
        var i :| 0 <= i < |fn| && fn[i] == n;
        assert b.fuzzy[i] in b.fuzzy;
      }
    }
  }

  /** A node whose fields are "n1" and "Root" is a sliced hit for the query "roo", at index 0 of "Root". */
  lemma ClassifyExample()
    ensures Classify(["n1", "Root"], "roo", DefaultMaxDistance) == SliceHit("Root", 0)
  {
    var fs: seq<string> := ["n1", "Root"];
    var low: string := "root";
    assert Lower("Root") == low by {
      assert |Lower("Root")| == 4;
      assert forall i :: 0 <= i < 4 ==> Lower("Root")[i] == low[i];
    }
    assert IndexOf(Lower("n1"), "roo") == -1;
    assert OccursAt(low, "roo", 0) by {
      assert low[0..3] == "roo";
    }
    assert Lower("n1") != "roo" && low != "roo";
    assert !HasExact(fs, "roo");
    assert FirstSliceFrom(fs, "roo", 0) == 1;
  }

  /** Neither field of the "n2"/"Leaf" node contains "roo" once lower-cased. */
  lemma LeafHasNoSlice()
    ensures Lower("Leaf") == "leaf" && Lower("n2") == "n2"
    ensures IndexOf("n2", "roo") == -1 && IndexOf("leaf", "roo") == -1
  {
    var low: string := "leaf";
    assert |Lower("Leaf")| == 4;
    assert forall i :: 0 <= i < 4 ==> Lower("Leaf")[i] == low[i];
    assert |Lower("n2")| == 2;
    assert forall i :: 0 <= i < 2 ==> Lower("n2")[i] == "n2"[i];
    assert low[0..3][0] == 'l' && low[1..4][0] == 'e';
    assert !OccursAt(low, "roo", 0) && !OccursAt(low, "roo", 1);
  }

  /** A node with "Leaf" as value and "n2" as id is too far from "roo" for the fuzzy bucket. */
  lemma ClassifyMissExample()
    ensures Classify(["n2", "Leaf"], "roo", DefaultMaxDistance) == Miss
  {
    var fs: seq<string> := ["n2", "Leaf"];
    LeafHasNoSlice();
    assert !HasExact(fs, "roo");
    assert FirstSliceFrom(fs, "roo", 0) == -1;
    LeafDistances();
    assert FieldDistance("roo", fs[0]) == 3 && FieldDistance("roo", fs[1]) == 4;
    var m := BestFrom(fs, "roo", 0);
    assert FieldDistance("roo", fs[m]) >= 3;
  }

  /** The distances from "roo" to the two lower-cased fields. */
  lemma LeafDistances()
    ensures EditDistance("roo", "n2") == 3 && EditDistance("roo", "leaf") == 4
  {
    RooN2();
    RooLeaf();
  }

  lemma RooN2()
    ensures EditDistance("roo", "n2") == 3
  {
    EditDistanceDisjoint("roo", "n2");
  }

  lemma RooLeaf()
    ensures EditDistance("roo", "leaf") == 4
  {
    EditDistanceDisjoint("roo", "leaf");
  }

  /**
   * When exactly one node matches the query exactly and the limit is
   * positive, that node heads the merged list.
   */
  lemma SearchUniqueExactFirst(nodes: seq<Node>, rawQuery: string, limit: int, maxDistance: int, n: Node)
    requires limit > 0 && n in nodes
    requires HasExact(SearchFields(n), NormalizeQuery(rawQuery))
    requires forall m :: m in nodes && HasExact(SearchFields(m), NormalizeQuery(rawQuery)) ==> m == n
    ensures var r := SearchSpec(nodes, rawQuery, limit, maxDistance); r.all != [] && r.all[0] == n
  {
    var q := NormalizeQuery(rawQuery);
    assert q != [] by {
      var k :| 0 <= k < |SearchFields(n)| && Lower(SearchFields(n)[k]) == q;
      SearchFieldsFacts(n);
      assert SearchFields(n)[k] in SearchFields(n);
    }
    SearchBuckets(nodes, rawQuery, limit, maxDistance);
    SearchAll(nodes, rawQuery, limit, maxDistance);
    var r := SearchSpec(nodes, rawQuery, limit, maxDistance);
    assert r.exact[0] in r.exact;
  }
}
