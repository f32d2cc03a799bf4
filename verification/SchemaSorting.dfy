/** `RefResolver.sort_schemas`: the `$ref` chain visitor over parsed schemas, and the ordering of
    the schemas it visited. What counts as a reference is defined from the schemas alone. */
module SchemaSorting {
  import opened Graphs
  import opened RefResolver

  /** A parsed schema, as far as the visitor looks: `xIndirect` is the `x-*-cpp-indirect` property,
      `indirect` the parsed field. Everything with several children is a `Compound`. */
  datatype Schema =
    | Ref(ref: Name, indirect: bool, xIndirect: bool)
    | ArrayOf(items: Schema)
    | Compound(children: seq<Schema>)
    | Plain

  type Schemas = map<Name, Schema>

  /** A Ref inside a schema, and whether its parent is an array. */
  type Site = (Schema, bool)

  /** The sites of a schema in visiting order. */
  ghost function RefsIn(s: Schema, inArray: bool): seq<Site> {
    match s
    case Ref(_, _, _) => [(s, inArray)]
    case ArrayOf(items) => RefsIn(items, true)
    case Compound(children) => RefsInAll(children)
    case Plain => []
  }

  ghost function RefsInAll(ss: seq<Schema>): seq<Site> {
    if ss == [] then [] else RefsIn(ss[0], false) + RefsInAll(ss[1..])
  }

  // ---- where references stand --------------------------------------------

  datatype Node = Nowhere | At(schema: Schema)

  /** What stands at a path of child positions: the only child of an array is its items. */
  ghost function SubschemaAt(s: Schema, path: seq<nat>): Node {
    if path == [] then At(s)
    else if s.ArrayOf? && path[0] == 0 then SubschemaAt(s.items, path[1..])
    else if s.Compound? && path[0] < |s.children| then SubschemaAt(s.children[path[0]], path[1..])
    else Nowhere
  }

  ghost predicate ItemOfArray(s: Schema, path: seq<nat>) {
    path != [] && SubschemaAt(s, path[..|path| - 1]).At? && SubschemaAt(s, path[..|path| - 1]).schema.ArrayOf?
  }

  /** The path leads to this Ref, and its parent is an array or not. */
  ghost predicate StandsAt(s: Schema, path: seq<nat>, at: Site) {
    SubschemaAt(s, path) == At(at.0) && at.0.Ref? && (at.1 <==> ItemOfArray(s, path))
  }

  ghost predicate HasSite(schemas: Schemas, n: Name, at: Site) {
    n in schemas && exists path :: StandsAt(schemas[n], path, at)
  }

  /** One step down from a schema with children. */
  lemma StepDown(s: Schema, i: nat, child: Schema, path: seq<nat>, at: Site)
    requires (s.ArrayOf? && i == 0 && child == s.items) || (s.Compound? && i < |s.children| && child == s.children[i])
    ensures StandsAt(s, [i] + path, at) <==>
            if path == [] then child.Ref? && at == (child, s.ArrayOf?) else StandsAt(child, path, at)
  {
    var whole := [i] + path;
    assert whole[1..] == path;
    if path == [] {
      assert whole[..|whole| - 1] == [] && SubschemaAt(s, whole) == SubschemaAt(child, []);
    } else {
      assert whole[..|whole| - 1] == [i] + path[..|path| - 1];
      assert ([i] + path[..|path| - 1])[1..] == path[..|path| - 1];
    }
  }

  /** A site counts as that of an array item if it is the schema itself and that is one. */
  ghost predicate StandsIn(s: Schema, inArray: bool, path: seq<nat>, at: Site) {
    if path == [] then s.Ref? && at == (s, inArray) else StandsAt(s, path, at)
  }

  lemma {:induction false} RefIsSomewhere(s: Schema, inArray: bool, at: Site) returns (path: seq<nat>)
    requires at in RefsIn(s, inArray)
    ensures StandsIn(s, inArray, path, at)
    decreases s
  {
    hide StandsAt;
    match s
    case Ref(_, _, _) => path := [];
    case ArrayOf(items) =>
      var rest := RefIsSomewhere(items, true, at);
      StepDown(s, 0, items, rest, at);
      path := [0] + rest;
    case Compound(children) =>
      var i := RefsOfChild(children, at);
      var rest := RefIsSomewhere(children[i], false, at);
      StepDown(s, i, children[i], rest, at);
      path := [i] + rest;
  }

  lemma {:induction false} RefsOfChild(ss: seq<Schema>, at: Site) returns (i: nat)
    requires at in RefsInAll(ss)
    ensures i < |ss| && at in RefsIn(ss[i], false)
  {
    hide RefsIn;
    if at in RefsIn(ss[0], false) {
      i := 0;
    } else {
      i := RefsOfChild(ss[1..], at);
      i := i + 1;
    }
  }

  lemma {:induction false} ChildRefsAreAll(ss: seq<Schema>, i: nat, at: Site)
    requires i < |ss| && at in RefsIn(ss[i], false)
    ensures at in RefsInAll(ss)
  {
    hide RefsIn;
    if i > 0 { ChildRefsAreAll(ss[1..], i - 1, at); }
  }

  lemma {:induction false} StandingIsVisited(s: Schema, inArray: bool, path: seq<nat>, at: Site)
    requires StandsIn(s, inArray, path, at)
    ensures at in RefsIn(s, inArray)
    decreases path
  {
    hide ItemOfArray;
    if path != [] {
      var i, rest := path[0], path[1..];
      assert path == [i] + rest;
      if s.ArrayOf? {
        StepDown(s, i, s.items, rest, at);
        StandingIsVisited(s.items, true, rest, at);
      } else {
        StepDown(s, i, s.children[i], rest, at);
        StandingIsVisited(s.children[i], false, rest, at);
        ChildRefsAreAll(s.children, i, at);
      }
    }
  }

  /** The visit comes by exactly the references that stand somewhere in the schema. */
  lemma SitesAreVisited(schemas: Schemas, n: Name, at: Site)
    ensures HasSite(schemas, n, at) <==> n in schemas && at in RefsIn(schemas[n], false)
  {
    hide RefsIn;
    if HasSite(schemas, n, at) {
      var path :| StandsAt(schemas[n], path, at);
      StandingIsVisited(schemas[n], false, path, at);
    }
    if n in schemas && at in RefsIn(schemas[n], false) {
      var path := RefIsSomewhere(schemas[n], false, at);
      assert StandsAt(schemas[n], path, at);
    }
  }

  // ---- chains ------------------------------------------------------------

  /** Local schemas hide external ones of the same name. */
  ghost function Lookup(schemas: Schemas, externals: Schemas, n: Name): Node {
    if n in schemas then At(schemas[n]) else if n in externals then At(externals[n]) else Nowhere
  }

  /** Where `k` steps along the chain lead. */
  ghost function NodeAfter(schemas: Schemas, externals: Schemas, local: Schema, k: nat): Node {
    if k == 0 then At(local)
    else
      var n := NodeAfter(schemas, externals, local, k - 1);
      if n.At? && n.schema.Ref? then Lookup(schemas, externals, n.schema.ref) else Nowhere
  }

  ghost predicate RefAt(schemas: Schemas, externals: Schemas, local: Schema, k: nat) {
    NodeAfter(schemas, externals, local, k).At? && NodeAfter(schemas, externals, local, k).schema.Ref?
  }

  /** The name that step `k` of the chain follows. */
  ghost function NameAt(schemas: Schemas, externals: Schemas, local: Schema, k: nat): Name
    requires RefAt(schemas, externals, local, k)
  {
    NodeAfter(schemas, externals, local, k).schema.ref
  }

  ghost predicate IndirectAt(schemas: Schemas, externals: Schemas, local: Schema, k: nat) {
    RefAt(schemas, externals, local, k) && NodeAfter(schemas, externals, local, k).schema.indirect
  }

  ghost predicate ExternalAt(schemas: Schemas, externals: Schemas, local: Schema, k: nat) {
    RefAt(schemas, externals, local, k) && NameAt(schemas, externals, local, k) !in schemas
  }

  ghost predicate UnknownAt(schemas: Schemas, externals: Schemas, local: Schema, k: nat, name: Name) {
    && RefAt(schemas, externals, local, k) && NameAt(schemas, externals, local, k) == name
    && name !in schemas && name !in externals
  }

  /** Some link of the chain is marked indirect. */
  ghost predicate Indirect(schemas: Schemas, externals: Schemas, local: Schema) {
    exists k: nat :: IndirectAt(schemas, externals, local, k)
  }

  /** Some link of the chain leaves the local schemas. */
  ghost predicate External(schemas: Schemas, externals: Schemas, local: Schema) {
    exists k: nat :: ExternalAt(schemas, externals, local, k)
  }

  /** Some link of the chain names nothing known. */
  ghost predicate Unknown(schemas: Schemas, externals: Schemas, local: Schema, name: Name) {
    exists k: nat :: UnknownAt(schemas, externals, local, k, name)
  }

  /** Step `k` follows a name that step `i` followed. */
  ghost predicate SameName(schemas: Schemas, externals: Schemas, local: Schema, i: nat, k: nat) {
    && RefAt(schemas, externals, local, i) && RefAt(schemas, externals, local, k)
    && NameAt(schemas, externals, local, i) == NameAt(schemas, externals, local, k)
  }

  ghost predicate Repeated(schemas: Schemas, externals: Schemas, local: Schema, k: nat) {
    exists i: nat :: i < k && SameName(schemas, externals, local, i, k)
  }

  /** The chain goes on after `k` steps: another Ref, and no name was followed twice. */
  ghost predicate GoesOn(schemas: Schemas, externals: Schemas, local: Schema, k: nat) {
    RefAt(schemas, externals, local, k) && !Repeated(schemas, externals, local, k)
  }

  /** The chain ends after `k + 1` steps: what it then stands at is no Ref, or was met before. */
  ghost predicate EndsAfter(schemas: Schemas, externals: Schemas, local: Schema, k: nat, target: Schema) {
    && NodeAfter(schemas, externals, local, k + 1) == At(target)
    && (!target.Ref? || Repeated(schemas, externals, local, k))
    && forall j: nat :: j < k ==> GoesOn(schemas, externals, local, j)
  }

  /** After a repeated name the chain goes round and round. */
  lemma {:induction false} Period(schemas: Schemas, externals: Schemas, local: Schema, i: nat, k: nat, e: nat)
    requires SameName(schemas, externals, local, i, k)
    ensures NodeAfter(schemas, externals, local, i + 1 + e) == NodeAfter(schemas, externals, local, k + 1 + e)
  {
    if e > 0 { Period(schemas, externals, local, i, k, e - 1); }
  }

  /** Every link of a chain that ends has a like one among those that were followed. */
  lemma {:induction false} LinkWithin(schemas: Schemas, externals: Schemas, local: Schema, k: nat, t: Schema, j: nat)
    returns (l: nat)
    requires EndsAfter(schemas, externals, local, k, t) && RefAt(schemas, externals, local, j)
    ensures l <= k && NodeAfter(schemas, externals, local, l) == NodeAfter(schemas, externals, local, j)
  {
    NothingBeyond(schemas, externals, local, k + 1, j);
    if j <= k || !t.Ref? {
      l := j;
    } else {
      var i: nat :| i < k && SameName(schemas, externals, local, i, k);
      Period(schemas, externals, local, i, k, j - k - 1);
      l := LinkWithin(schemas, externals, local, k, t, j - (k - i));
    }
  }

  lemma {:induction false} NothingBeyond(schemas: Schemas, externals: Schemas, local: Schema, k: nat, j: nat)
    ensures k <= j && RefAt(schemas, externals, local, j) ==> RefAt(schemas, externals, local, k)
    decreases j
  {
    if k < j { NothingBeyond(schemas, externals, local, k, j - 1); }
  }

  /** Where a chain ends is determined. */
  lemma OneEnd(schemas: Schemas, externals: Schemas, local: Schema, k: nat, t: Schema, l: nat, u: Schema)
    requires EndsAfter(schemas, externals, local, k, t) && EndsAfter(schemas, externals, local, l, u)
    ensures k == l && t == u
  {
    hide Repeated;
    EndsFirst(schemas, externals, local, k, t, l, u);
    EndsFirst(schemas, externals, local, l, u, k, t);
  }

  lemma EndsFirst(schemas: Schemas, externals: Schemas, local: Schema, k: nat, t: Schema, l: nat, u: Schema)
    requires EndsAfter(schemas, externals, local, k, t) && EndsAfter(schemas, externals, local, l, u)
    ensures l <= k
  {
    hide Repeated;
    assert k < l ==> GoesOn(schemas, externals, local, k);
    LinkIsKnown(schemas, externals, local, l, u, if k + 1 <= l then k + 1 else 0);
  }

  // ---- following a chain -------------------------------------------------

  datatype Chain = ChainEnd(target: Schema, indirect: bool, external: bool) | UnknownRef(name: Name)

  ghost predicate IndirectWithin(schemas: Schemas, externals: Schemas, local: Schema, k: nat) {
    exists j: nat :: j < k && IndirectAt(schemas, externals, local, j)
  }

  ghost predicate ExternalWithin(schemas: Schemas, externals: Schemas, local: Schema, k: nat) {
    exists j: nat :: j < k && ExternalAt(schemas, externals, local, j)
  }

  lemma WithinOneMore(schemas: Schemas, externals: Schemas, local: Schema, k: nat)
    ensures IndirectWithin(schemas, externals, local, k + 1)
            <==> IndirectWithin(schemas, externals, local, k) || IndirectAt(schemas, externals, local, k)
    ensures ExternalWithin(schemas, externals, local, k + 1)
            <==> ExternalWithin(schemas, externals, local, k) || ExternalAt(schemas, externals, local, k)
  {
    hide IndirectAt, ExternalAt;
    if IndirectWithin(schemas, externals, local, k + 1) {
      var j: nat :| j < k + 1 && IndirectAt(schemas, externals, local, j);
      assert j == k || j < k;
    }
    if ExternalWithin(schemas, externals, local, k + 1) {
      var j: nat :| j < k + 1 && ExternalAt(schemas, externals, local, j);
      assert j == k || j < k;
    }
  }

  /** What was seen by the end is all there is. */
  lemma WithinIsAll(schemas: Schemas, externals: Schemas, local: Schema, k: nat, t: Schema)
    requires EndsAfter(schemas, externals, local, k, t)
    ensures IndirectWithin(schemas, externals, local, k + 1) <==> Indirect(schemas, externals, local)
    ensures ExternalWithin(schemas, externals, local, k + 1) <==> External(schemas, externals, local)
    ensures forall name :: !Unknown(schemas, externals, local, name)
  {
    hide NodeAfter, EndsAfter;
    if Indirect(schemas, externals, local) {
      var j: nat :| IndirectAt(schemas, externals, local, j);
      var l := LinkWithin(schemas, externals, local, k, t, j);
      assert l < k + 1 && IndirectAt(schemas, externals, local, l);
    }
    if External(schemas, externals, local) {
      var j: nat :| ExternalAt(schemas, externals, local, j);
      var l := LinkWithin(schemas, externals, local, k, t, j);
      assert l < k + 1 && ExternalAt(schemas, externals, local, l);
    }
    forall name ensures !Unknown(schemas, externals, local, name) {
      if Unknown(schemas, externals, local, name) {
        var j: nat :| UnknownAt(schemas, externals, local, j, name);
        var l := LinkWithin(schemas, externals, local, k, t, j);
        assert UnknownAt(schemas, externals, local, l, name);
        LinkIsKnown(schemas, externals, local, k, t, l);
      }
    }
  }

  lemma LinkIsKnown(schemas: Schemas, externals: Schemas, local: Schema, k: nat, t: Schema, l: nat)
    requires EndsAfter(schemas, externals, local, k, t) && l <= k
    ensures NodeAfter(schemas, externals, local, l + 1).At?
    ensures RefAt(schemas, externals, local, l)
    ensures forall name :: !UnknownAt(schemas, externals, local, l, name)
  {
    hide Repeated;
    if l < k {
      assert GoesOn(schemas, externals, local, l);
      assert l + 1 < k ==> GoesOn(schemas, externals, local, l + 1);
    }
  }

  /** The names followed so far, all different. */
  ghost predicate Followed(schemas: Schemas, externals: Schemas, local: Schema, walk: seq<Name>) {
    && NoDuplicates(walk)
    && forall i :: 0 <= i < |walk| ==>
         RefAt(schemas, externals, local, i) && NameAt(schemas, externals, local, i) == walk[i]
  }

  lemma FollowedGoesOn(schemas: Schemas, externals: Schemas, local: Schema, walk: seq<Name>)
    requires Followed(schemas, externals, local, walk)
    ensures forall j: nat :: j < |walk| ==> GoesOn(schemas, externals, local, j)
    ensures RefAt(schemas, externals, local, |walk|) ==>
              (Repeated(schemas, externals, local, |walk|) <==> NameAt(schemas, externals, local, |walk|) in walk)
  {
    hide NodeAfter;
    var k := |walk|;
    if RefAt(schemas, externals, local, k) && NameAt(schemas, externals, local, k) in walk {
      var i: nat :| i < |walk| && walk[i] == NameAt(schemas, externals, local, k);
      assert SameName(schemas, externals, local, i, k);
    }
    if Repeated(schemas, externals, local, k) {
      var i: nat :| i < k && SameName(schemas, externals, local, i, k);
      assert walk[i] == NameAt(schemas, externals, local, k);
    }
  }

  lemma FollowedOneMore(schemas: Schemas, externals: Schemas, local: Schema, walk: seq<Name>, n: Name)
    requires Followed(schemas, externals, local, walk) && n !in walk
    requires RefAt(schemas, externals, local, |walk|) && NameAt(schemas, externals, local, |walk|) == n
    ensures Followed(schemas, externals, local, walk + [n])
  {
    hide NodeAfter, RefAt;
  }

  /** Follows a chain of Refs through local and external schemas; a schema seen twice ends the walk. */
  method FollowChain(schemas: Schemas, externals: Schemas, local: Schema) returns (r: Chain, ghost steps: nat)
    requires local.Ref?
    ensures r.ChainEnd? ==> EndsAfter(schemas, externals, local, steps, r.target)
    ensures r.ChainEnd? ==> (r.indirect <==> Indirect(schemas, externals, local))
    ensures r.ChainEnd? ==> (r.external <==> External(schemas, externals, local))
    ensures r.ChainEnd? <==> forall name :: !Unknown(schemas, externals, local, name)
    ensures r.UnknownRef? ==> Unknown(schemas, externals, local, r.name)
  {
    hide Followed, Indirect, External, IndirectWithin, ExternalWithin, Repeated, NoDuplicates, GoesOn;
    var cur := local;
    var seen: set<Name> := {};
    var indirect, external := false, false;
    ghost var walk: seq<Name> := [];
    assert Followed(schemas, externals, local, walk) by { NothingFollowed(schemas, externals, local); }
    assert !IndirectWithin(schemas, externals, local, 0) && !ExternalWithin(schemas, externals, local, 0) by {
      NothingWithin(schemas, externals, local);
    }
    steps := 0;
    while true
      invariant cur.Ref? && steps == |walk| && NodeAfter(schemas, externals, local, steps) == At(cur)
      invariant Followed(schemas, externals, local, walk)
      invariant seen == Elems(walk) && seen <= schemas.Keys + externals.Keys
      invariant indirect <==> IndirectWithin(schemas, externals, local, steps)
      invariant external <==> ExternalWithin(schemas, externals, local, steps)
      decreases schemas.Keys + externals.Keys - seen
    {
      var n := cur.ref;
      WithinOneMore(schemas, externals, local, steps);
      FollowedGoesOn(schemas, externals, local, walk);
      indirect := indirect || cur.indirect;
      if n !in schemas {
        if n !in externals {
          assert UnknownAt(schemas, externals, local, steps, n);
          assert Unknown(schemas, externals, local, n);
          return UnknownRef(n), steps;
        }
        external := true;
        cur := externals[n];
      } else {
        cur := schemas[n];
      }
      assert NodeAfter(schemas, externals, local, steps + 1) == At(cur);
      if n in seen || !cur.Ref? {
        assert EndsAfter(schemas, externals, local, steps, cur);
        WithinIsAll(schemas, externals, local, steps, cur);
        return ChainEnd(cur, indirect, external), steps;
      }
      FollowedOneMore(schemas, externals, local, walk, n);
      walk, seen, steps := walk + [n], seen + {n}, steps + 1;
    }
  }

  lemma NothingFollowed(schemas: Schemas, externals: Schemas, local: Schema)
    ensures Followed(schemas, externals, local, [])
  {
  }

  lemma NothingWithin(schemas: Schemas, externals: Schemas, local: Schema)
    ensures !IndirectWithin(schemas, externals, local, 0) && !ExternalWithin(schemas, externals, local, 0)
  {
  }

  // ---- what the visitor should find --------------------------------------

  /** The owner refers to itself as the item type of an array. */
  predicate SelfItem(owner: Name, at: Site) { at.1 && at.0.Ref? && at.0.ref == owner }

  /** A reference that orders its owner after its target. */
  ghost predicate CountedSite(schemas: Schemas, externals: Schemas, owner: Name, at: Site) {
    at.0.Ref? && !SelfItem(owner, at) && !at.0.xIndirect && !External(schemas, externals, at.0)
  }

  /** Somewhere in `n` a counted reference names `x`. */
  ghost predicate Counts(schemas: Schemas, externals: Schemas, n: Name, x: Name) {
    exists at :: HasSite(schemas, n, at) && CountedSite(schemas, externals, n, at) && at.0.ref == x
  }

  /** Owners and the targets of their counted references, which are all local. */
  ghost function CountedGraph(schemas: Schemas, externals: Schemas): Graph {
    map n | n in schemas :: set x | x in schemas && Counts(schemas, externals, n, x)
  }

  lemma CountedIsLocal(schemas: Schemas, externals: Schemas, n: Name, x: Name)
    ensures Edge(CountedGraph(schemas, externals), n, x) <==> Counts(schemas, externals, n, x)
  {
    hide HasSite, NodeAfter;
    if Counts(schemas, externals, n, x) {
      var at :| HasSite(schemas, n, at) && CountedSite(schemas, externals, n, at) && at.0.ref == x;
      assert n in schemas by { SitesAreVisited(schemas, n, at); }
      FirstLink(schemas, externals, at.0);
    }
  }

  lemma FirstLink(schemas: Schemas, externals: Schemas, local: Schema)
    requires local.Ref? && !External(schemas, externals, local)
    ensures local.ref in schemas
  {
    assert !ExternalAt(schemas, externals, local, 0);
  }

  /** One link of a chain: local schemas hide external ones, and a name known to neither leads nowhere. */
  lemma {:induction false} ChainUnrolls(schemas: Schemas, externals: Schemas, local: Schema, k: nat)
    requires local.Ref?
    ensures NodeAfter(schemas, externals, local, k + 1) ==
            if local.ref in schemas then NodeAfter(schemas, externals, schemas[local.ref], k)
            else if local.ref in externals then NodeAfter(schemas, externals, externals[local.ref], k)
            else Nowhere
  {
    if k > 0 { ChainUnrolls(schemas, externals, local, k - 1); }
  }

  /** A reference to a schema that is no reference resolves to that schema, the local one if there are two. */
  lemma DirectTarget(schemas: Schemas, externals: Schemas, local: Schema)
    requires local.Ref?
    ensures local.ref in schemas && !schemas[local.ref].Ref? ==>
              EndsAfter(schemas, externals, local, 0, schemas[local.ref]) && !External(schemas, externals, local)
    ensures local.ref !in schemas && local.ref in externals && !externals[local.ref].Ref? ==>
              EndsAfter(schemas, externals, local, 0, externals[local.ref]) && External(schemas, externals, local)
  {
    ChainUnrolls(schemas, externals, local, 0);
    if local.ref in schemas && !schemas[local.ref].Ref? {
      forall k: nat ensures !ExternalAt(schemas, externals, local, k) { DirectChain(schemas, externals, local, k); }
    }
    if local.ref !in schemas {
      assert ExternalAt(schemas, externals, local, 0) <==> RefAt(schemas, externals, local, 0);
    }
  }

  /** The plainest case: a local target that is no reference itself orders the owner after it. */
  lemma DirectRefCounts(schemas: Schemas, externals: Schemas, n: Name, path: seq<nat>, x: Name, marked: bool)
    requires n in schemas && x in schemas && !schemas[x].Ref?
    requires SubschemaAt(schemas[n], path) == At(Ref(x, marked, false))
    requires x == n ==> !ItemOfArray(schemas[n], path)
    ensures Edge(CountedGraph(schemas, externals), n, x)
  {
    var at: Site := (Ref(x, marked, false), ItemOfArray(schemas[n], path));
    assert StandsAt(schemas[n], path, at);
    assert HasSite(schemas, n, at);
    forall k: nat ensures !ExternalAt(schemas, externals, at.0, k) { DirectChain(schemas, externals, at.0, k); }
    CountedIsLocal(schemas, externals, n, x);
  }

  lemma {:induction false} DirectChain(schemas: Schemas, externals: Schemas, local: Schema, k: nat)
    requires local.Ref? && local.ref in schemas && !schemas[local.ref].Ref?
    ensures !ExternalAt(schemas, externals, local, k)
    ensures k > 0 ==> !RefAt(schemas, externals, local, k)
  {
    if k > 0 { DirectChain(schemas, externals, local, k - 1); }
  }

  /** Only local references count, none that is marked, and none of an array's items to the array. */
  lemma CountedOnlyIf(schemas: Schemas, externals: Schemas, n: Name, x: Name)
    requires Edge(CountedGraph(schemas, externals), n, x)
    ensures n in schemas && x in schemas && (schemas[x].Ref? ==> schemas[x].ref in schemas)
    ensures exists path, marked :: && SubschemaAt(schemas[n], path) == At(Ref(x, marked, false))
                                   && (x == n ==> !ItemOfArray(schemas[n], path))
  {
    CountedIsLocal(schemas, externals, n, x);
    var at :| HasSite(schemas, n, at) && CountedSite(schemas, externals, n, at) && at.0.ref == x;
    var path :| StandsAt(schemas[n], path, at);
    assert at.0 == Ref(x, at.0.indirect, false);
    assert !ExternalAt(schemas, externals, at.0, 0) && !ExternalAt(schemas, externals, at.0, 1);
    assert NodeAfter(schemas, externals, at.0, 1) == At(schemas[x]);
  }

  /** What stands wrong at a path is found: an unknown name, a marked item reference to the array itself. */
  lemma NotCleanIf(schemas: Schemas, externals: Schemas, n: Name, path: seq<nat>, node: Schema)
    requires n in schemas && SubschemaAt(schemas[n], path) == At(node) && node.Ref?
    ensures node.ref !in schemas && node.ref !in externals ==> !Clean(schemas, externals)
    ensures node.ref == n && node.indirect && ItemOfArray(schemas[n], path) ==> !Clean(schemas, externals)
  {
    var at: Site := (node, ItemOfArray(schemas[n], path));
    assert StandsAt(schemas[n], path, at);
    assert HasSite(schemas, n, at);
    if node.ref !in schemas && node.ref !in externals {
      assert UnknownAt(schemas, externals, node, 0, node.ref);
      assert UnknownSite(schemas, externals, at, node.ref);
    }
    if node.ref == n && node.indirect && ItemOfArray(schemas[n], path) {
      assert IndirectAt(schemas, externals, node, 0);
    }
  }

  /** An item reference to its own array that is marked indirect on top. */
  ghost predicate RedundantSite(schemas: Schemas, externals: Schemas, owner: Name, at: Site) {
    SelfItem(owner, at) && Indirect(schemas, externals, at.0)
  }

  ghost predicate UnknownSite(schemas: Schemas, externals: Schemas, at: Site, name: Name) {
    at.0.Ref? && Unknown(schemas, externals, at.0, name)
  }

  ghost predicate CleanSite(schemas: Schemas, externals: Schemas, owner: Name, at: Site) {
    !RedundantSite(schemas, externals, owner, at) && forall name :: !UnknownSite(schemas, externals, at, name)
  }

  /** No reference is redundant or leads nowhere. */
  ghost predicate Clean(schemas: Schemas, externals: Schemas) {
    forall n, at :: HasSite(schemas, n, at) ==> CleanSite(schemas, externals, n, at)
  }

  // ---- the visitor -------------------------------------------------------

  /** One visited Ref: who owns it, what its chain led to, and what the visitor noted about it. */
  datatype Resolution = Resolution(
    owner: Name,
    node: Schema,
    inArray: bool,
    target: Schema,
    indirect: bool,
    external: bool)
  {
    predicate Counted()
      requires node.Ref?
    {
      !SelfItem(owner, (node, inArray)) && !node.xIndirect && !external
    }
  }

  /** Target and notes are those of the chain. */
  ghost predicate Right(schemas: Schemas, externals: Schemas, e: Resolution) {
    && e.node.Ref?
    && (exists k: nat :: EndsAfter(schemas, externals, e.node, k, e.target))
    && (e.indirect <==> Indirect(schemas, externals, e.node))
    && (e.external <==> External(schemas, externals, e.node))
  }

  ghost predicate AllRight(schemas: Schemas, externals: Schemas, done: seq<Resolution>) {
    forall e :: e in done ==> Right(schemas, externals, e)
  }

  ghost predicate Listed(done: seq<Resolution>, n: Name, x: Name) {
    exists e :: e in done && e.owner == n && e.node.Ref? && e.node.ref == x && e.Counted()
  }

  /** The edge lists hold exactly the counted Refs. */
  ghost predicate EdgesMatch(edges: EdgeLists, done: seq<Resolution>) {
    forall n, x :: x in Sub(edges, n) <==> Listed(done, n, x)
  }

  ghost predicate Recorded(done: seq<Resolution>, owner: Name, at: Site) {
    exists e :: e in done && e.owner == owner && (e.node, e.inArray) == at
  }

  ghost predicate RecordedAll(done: seq<Resolution>, owner: Name, refs: seq<Site>) {
    forall at :: at in refs ==> Recorded(done, owner, at)
  }

  ghost predicate Originates(e: Resolution, owner: Name, refs: seq<Site>) {
    e.owner == owner && (e.node, e.inArray) in refs
  }

  /** Everything recorded since `before` comes from the given Refs. */
  ghost predicate NewFrom(before: seq<Resolution>, done: seq<Resolution>, owner: Name, refs: seq<Site>) {
    forall e :: e in done && e !in before ==> Originates(e, owner, refs)
  }

  datatype VisitResult = Visited | UnknownName(name: Name) | Redundant(owner: Name)

  /** The visit went through if and only if every site is clean; otherwise the error names a culprit. */
  ghost predicate Fair(schemas: Schemas, externals: Schemas, owner: Name, refs: seq<Site>, r: VisitResult) {
    match r
    case Visited => forall at :: at in refs ==> CleanSite(schemas, externals, owner, at)
    case UnknownName(name) => exists at :: at in refs && UnknownSite(schemas, externals, at, name)
    case Redundant(o) => o == owner && exists at :: at in refs && RedundantSite(schemas, externals, owner, at)
  }

  class Visitor {
    const schemas: Schemas
    const externals: Schemas
    var edges: EdgeLists
    var done: seq<Resolution>

    ghost predicate Valid()
      reads this
    {
      EdgesMatch(edges, done) && AllRight(schemas, externals, done)
    }

    constructor (schemas: Schemas, externals: Schemas)
      ensures Valid() && this.schemas == schemas && this.externals == externals && done == []
    {
      this.schemas, this.externals := schemas, externals;
      edges, done := map[], [];
    }

    /** The visitor callback on a Ref. */
    method VisitRef(owner: Name, node: Schema, inArray: bool) returns (r: VisitResult)
      requires Valid() && node.Ref?
      modifies this`edges, this`done
      ensures Valid() && Fair(schemas, externals, owner, [(node, inArray)], r)
      ensures !r.Visited? ==> done == old(done)
      ensures r.Visited? ==> |done| == |old(done)| + 1 && done[..|old(done)|] == old(done)
      ensures r.Visited? ==> var e := done[|done| - 1]; e.owner == owner && e.node == node && e.inArray == inArray
    {
      hide EdgesMatch, AllRight, EndsAfter, Indirect, External, Unknown;
      var chain, steps := FollowChain(schemas, externals, node);
      ghost var at := (node, inArray);
      assert at in [at];
      if chain.UnknownRef? {
        assert UnknownSite(schemas, externals, at, chain.name);
        return UnknownName(chain.name);
      }
      var selfItem := inArray && owner == node.ref;
      if selfItem && chain.indirect {
        assert RedundantSite(schemas, externals, owner, at);
        return Redundant(owner);
      }
      var e := Resolution(owner, node, inArray, chain.target, chain.indirect, chain.external);
      assert Right(schemas, externals, e);
      RightOneMore(schemas, externals, done, e);
      EdgesOneMore(edges, done, e);
      done := done + [e];
      if !selfItem && !node.xIndirect && !chain.external {
        edges := edges[owner := Sub(edges, owner) + [node.ref]];
      }
      r := Visited;
    }

    /** `visitor(schema)` followed by `schema.visit_children(visitor)`. */
    method Visit(owner: Name, s: Schema, inArray: bool) returns (r: VisitResult)
      requires Valid()
      modifies this`edges, this`done
      ensures Valid() && old(done) <= done
      ensures NewFrom(old(done), done, owner, RefsIn(s, inArray))
      ensures r.Visited? ==> RecordedAll(done, owner, RefsIn(s, inArray))
      ensures Fair(schemas, externals, owner, RefsIn(s, inArray), r)
      decreases s, 0
    {
      hide EdgesMatch, AllRight, CleanSite, UnknownSite, RedundantSite;
      match s
      case Ref(_, _, _) =>
        r := VisitRef(owner, s, inArray);
        assert r.Visited? ==> done[|done| - 1] in done;
      case ArrayOf(items) => r := Visit(owner, items, true);
      case Compound(children) => r := VisitAll(owner, children);
      case Plain => r := Visited;
    }

    method VisitAll(owner: Name, ss: seq<Schema>) returns (r: VisitResult)
      requires Valid()
      modifies this`edges, this`done
      ensures Valid() && old(done) <= done
      ensures NewFrom(old(done), done, owner, RefsInAll(ss))
      ensures r.Visited? ==> RecordedAll(done, owner, RefsInAll(ss))
      ensures Fair(schemas, externals, owner, RefsInAll(ss), r)
      decreases ss, 1
    {
      hide EdgesMatch, AllRight, CleanSite, UnknownSite, RedundantSite, RecordedAll, NewFrom;
      if ss == [] {
        NothingNew(done, owner);
        return Visited;
      }
      r := Visit(owner, ss[0], false);
      ghost var mid := done;
      NewIn(old(done), mid, owner, RefsIn(ss[0], false), RefsInAll(ss));
      if !r.Visited? {
        return;
      }
      r := VisitAll(owner, ss[1..]);
      NewIn(mid, done, owner, RefsInAll(ss[1..]), RefsInAll(ss));
      NewJoins(old(done), mid, done, owner, RefsInAll(ss));
      if r.Visited? {
        StillRecorded(mid, done, owner, RefsIn(ss[0], false));
        RecordedBoth(done, owner, RefsIn(ss[0], false), RefsInAll(ss[1..]));
      }
    }
  }

  lemma RightOneMore(schemas: Schemas, externals: Schemas, done: seq<Resolution>, e: Resolution)
    requires AllRight(schemas, externals, done) && Right(schemas, externals, e)
    ensures AllRight(schemas, externals, done + [e])
  {
    hide Right;
  }

  lemma NothingNew(done: seq<Resolution>, owner: Name)
    ensures NewFrom(done, done, owner, []) && RecordedAll(done, owner, [])
  {
  }

  lemma NewIn(before: seq<Resolution>, done: seq<Resolution>, owner: Name, refs: seq<Site>, more: seq<Site>)
    requires NewFrom(before, done, owner, refs) && forall at :: at in refs ==> at in more
    ensures NewFrom(before, done, owner, more)
  {
    forall e | e in done && e !in before ensures Originates(e, owner, more) {
      assert Originates(e, owner, refs);
    }
  }

  lemma NewJoins(a: seq<Resolution>, b: seq<Resolution>, c: seq<Resolution>, owner: Name, refs: seq<Site>)
    requires NewFrom(a, b, owner, refs) && NewFrom(b, c, owner, refs)
    ensures NewFrom(a, c, owner, refs)
  {
    hide Originates;
  }

  lemma StillRecorded(before: seq<Resolution>, done: seq<Resolution>, n: Name, refs: seq<Site>)
    requires before <= done && RecordedAll(before, n, refs)
    ensures RecordedAll(done, n, refs)
  {
    forall at | at in refs ensures Recorded(done, n, at) {
      assert Recorded(before, n, at);
    }
  }

  lemma RecordedBoth(done: seq<Resolution>, n: Name, refs: seq<Site>, more: seq<Site>)
    requires RecordedAll(done, n, refs) && RecordedAll(done, n, more)
    ensures RecordedAll(done, n, refs + more)
  {
    hide Recorded;
  }

  /** Recording one more Ref keeps the edge lists in step. */
  lemma EdgesOneMore(edges: EdgeLists, done: seq<Resolution>, e: Resolution)
    requires EdgesMatch(edges, done) && e.node.Ref?
    ensures EdgesMatch(if e.Counted() then edges[e.owner := Sub(edges, e.owner) + [e.node.ref]] else edges, done + [e])
  {
    var edges' := if e.Counted() then edges[e.owner := Sub(edges, e.owner) + [e.node.ref]] else edges;
    forall n, x ensures x in Sub(edges', n) <==> Listed(done + [e], n, x) {
      ListedOneMore(done, e, n, x);
    }
  }

  lemma ListedOneMore(done: seq<Resolution>, e: Resolution, n: Name, x: Name)
    requires e.node.Ref?
    ensures Listed(done + [e], n, x) <==> Listed(done, n, x) || (e.Counted() && e.owner == n && e.node.ref == x)
  {
    var more := done + [e];
    assert e in more && forall f :: f in more <==> f in done || f == e;
    if f :| f in done && f.owner == n && f.node.Ref? && f.node.ref == x && f.Counted() {
      assert f in more;
    }
  }

  // ---- sort_schemas ------------------------------------------------------

  datatype Outcome =
    | Ordered(order: seq<Name>, resolutions: seq<Resolution>)
    | UnknownType(name: Name)
    | RedundantIndirect(owner: Name)
    | RefCycle(trail: seq<Name>, node: Name)

  /** Every Ref of every schema is resolved as its chain says, and nothing else is. */
  ghost predicate Complete(schemas: Schemas, externals: Schemas, done: seq<Resolution>) {
    && (forall n, at :: HasSite(schemas, n, at) ==> Recorded(done, n, at))
    && (forall e :: e in done ==> HasSite(schemas, e.owner, (e.node, e.inArray)))
    && AllRight(schemas, externals, done)
  }

  /** The loop over all schemas. */
  method VisitSchemas(schemas: Schemas, externals: Schemas)
    returns (r: VisitResult, edges: EdgeLists, done: seq<Resolution>)
    ensures r.Visited? <==> Clean(schemas, externals)
    ensures r.Visited? ==> EdgesMatch(edges, done) && Complete(schemas, externals, done)
    ensures r.UnknownName? ==>
              exists n, at :: HasSite(schemas, n, at) && UnknownSite(schemas, externals, at, r.name)
    ensures r.Redundant? ==>
              exists at :: HasSite(schemas, r.owner, at) && RedundantSite(schemas, externals, r.owner, at)
  {
    hide EdgesMatch, AllRight, RecordedAll, RefsIn, CleanSite, UnknownSite, RedundantSite, HasSite;
    var visitor := new Visitor(schemas, externals);
    var todo := schemas.Keys;
    r := Visited;
    while todo != {}
      invariant todo <= schemas.Keys && fresh(visitor) && r.Visited?
      invariant visitor.Valid() && visitor.schemas == schemas && visitor.externals == externals
      invariant forall n :: n in schemas.Keys - todo ==> RecordedAll(visitor.done, n, RefsIn(schemas[n], false))
      invariant forall n :: n in schemas.Keys - todo ==> Fair(schemas, externals, n, RefsIn(schemas[n], false), Visited)
      invariant forall e :: e in visitor.done ==>
                  e.owner in schemas && (e.node, e.inArray) in RefsIn(schemas[e.owner], false)
      decreases todo
    {
      var name :| name in todo;
      ghost var before := visitor.done;
      r := visitor.Visit(name, schemas[name], false);
      if !r.Visited? {
        Unclean(schemas, externals, name, r);
        return r, map[], [];
      }
      forall n | n in schemas.Keys - todo ensures RecordedAll(visitor.done, n, RefsIn(schemas[n], false)) {
        StillRecorded(before, visitor.done, n, RefsIn(schemas[n], false));
      }
      forall e | e in visitor.done
        ensures e.owner in schemas && (e.node, e.inArray) in RefsIn(schemas[e.owner], false)
      {
        assert e in before || Originates(e, name, RefsIn(schemas[name], false));
      }
      todo := todo - {name};
    }
    edges, done := visitor.edges, visitor.done;
    AllVisited(schemas, externals, done);
  }

  lemma AllVisited(schemas: Schemas, externals: Schemas, done: seq<Resolution>)
    requires AllRight(schemas, externals, done)
    requires forall n :: n in schemas ==> RecordedAll(done, n, RefsIn(schemas[n], false))
    requires forall n :: n in schemas ==> Fair(schemas, externals, n, RefsIn(schemas[n], false), Visited)
    requires forall e :: e in done ==> e.owner in schemas && (e.node, e.inArray) in RefsIn(schemas[e.owner], false)
    ensures Clean(schemas, externals) && Complete(schemas, externals, done)
  {
    hide HasSite, RefsIn, CleanSite, Recorded, AllRight;
    forall n, at | HasSite(schemas, n, at) ensures CleanSite(schemas, externals, n, at) && Recorded(done, n, at) {
      SitesAreVisited(schemas, n, at);
    }
    forall e | e in done ensures HasSite(schemas, e.owner, (e.node, e.inArray)) {
      SitesAreVisited(schemas, e.owner, (e.node, e.inArray));
    }
  }

  lemma Unclean(schemas: Schemas, externals: Schemas, name: Name, r: VisitResult)
    requires name in schemas && !r.Visited? && Fair(schemas, externals, name, RefsIn(schemas[name], false), r)
    ensures !Clean(schemas, externals)
    ensures r.UnknownName? ==>
              exists n, at :: HasSite(schemas, n, at) && UnknownSite(schemas, externals, at, r.name)
    ensures r.Redundant? ==>
              exists at :: HasSite(schemas, r.owner, at) && RedundantSite(schemas, externals, r.owner, at)
  {
    hide UnknownSite, RedundantSite, RefsIn, HasSite;
    if r.UnknownName? {
      var at :| at in RefsIn(schemas[name], false) && UnknownSite(schemas, externals, at, r.name);
      SitesAreVisited(schemas, name, at);
      assert HasSite(schemas, name, at) && !CleanSite(schemas, externals, name, at);
    } else {
      var at :| at in RefsIn(schemas[name], false) && RedundantSite(schemas, externals, name, at);
      SitesAreVisited(schemas, name, at);
      assert HasSite(schemas, name, at) && !CleanSite(schemas, externals, name, at);
    }
  }

  /** The edge lists are the counted graph. */
  lemma EdgesAreCounted(schemas: Schemas, externals: Schemas, edges: EdgeLists, done: seq<Resolution>)
    requires EdgesMatch(edges, done) && Complete(schemas, externals, done)
    ensures SameEdges(AsGraph(edges), CountedGraph(schemas, externals))
  {
    forall n, x ensures Edge(AsGraph(edges), n, x) <==> Edge(CountedGraph(schemas, externals), n, x) {
      ListedIsCounted(schemas, externals, done, n, x);
      assert Edge(AsGraph(edges), n, x) <==> x in Sub(edges, n);
    }
  }

  lemma ListedIsCounted(schemas: Schemas, externals: Schemas, done: seq<Resolution>, n: Name, x: Name)
    requires Complete(schemas, externals, done)
    ensures Listed(done, n, x) <==> Edge(CountedGraph(schemas, externals), n, x)
  {
    hide HasSite, External, Indirect, EndsAfter, CountedGraph;
    CountedIsLocal(schemas, externals, n, x);
    if Listed(done, n, x) {
      var e :| e in done && e.owner == n && e.node.Ref? && e.node.ref == x && e.Counted();
      assert HasSite(schemas, n, (e.node, e.inArray)) && Right(schemas, externals, e);
      assert CountedSite(schemas, externals, n, (e.node, e.inArray));
    }
    if Edge(CountedGraph(schemas, externals), n, x) {
      var at :| HasSite(schemas, n, at) && CountedSite(schemas, externals, n, at) && at.0.ref == x;
      assert Recorded(done, n, at);
      var e :| e in done && e.owner == n && (e.node, e.inArray) == at;
      assert Right(schemas, externals, e);
    }
  }

  /** Counted references lead to local schemas only. */
  lemma CountedStaysInside(schemas: Schemas, externals: Schemas)
    ensures OverNodes(CountedGraph(schemas, externals), schemas.Keys)
  {
  }

  /** The trail of the error runs along counted references and closes on itself. */
  ghost predicate ClosedTrail(g: Graph, trail: seq<Name>, node: Name) {
    Path(g, trail) && Edge(g, trail[|trail| - 1], node) && node in trail
  }

  /** Every target stands strictly before its owner. */
  ghost predicate TargetsBeforeOwners(g: Graph, order: seq<Name>) {
    forall i, x :: 0 <= i < |order| && Edge(g, order[i], x) ==> x in order[..i]
  }

  /** No indirect, external or array-self references anywhere. */
  ghost predicate PlainRefs(schemas: Schemas) {
    forall n, at :: HasSite(schemas, n, at) ==>
      at.0.Ref? && !at.0.indirect && !at.0.xIndirect && at.0.ref in schemas && !SelfItem(n, at)
  }

  method SortSchemas(schemas: Schemas, externals: Schemas) returns (r: Outcome)
    ensures r.Ordered? <==> Clean(schemas, externals) && Acyclic(CountedGraph(schemas, externals))
    ensures r.RefCycle? <==> Clean(schemas, externals) && !Acyclic(CountedGraph(schemas, externals))
    ensures r.UnknownType? ==>
              exists n, at :: HasSite(schemas, n, at) && UnknownSite(schemas, externals, at, r.name)
    ensures r.RedundantIndirect? ==>
              exists at :: HasSite(schemas, r.owner, at) && RedundantSite(schemas, externals, r.owner, at)
    ensures r.RefCycle? ==> ClosedTrail(CountedGraph(schemas, externals), r.trail, r.node)
    ensures r.Ordered? ==> NoDuplicates(r.order) && forall n :: n in r.order <==> n in schemas
    ensures r.Ordered? ==> TargetsBeforeOwners(CountedGraph(schemas, externals), r.order)
    ensures r.Ordered? ==> Complete(schemas, externals, r.resolutions)
    ensures r.Ordered? && PlainRefs(schemas) ==> forall e :: e in r.resolutions ==> !e.target.Ref?
  {
    hide ClosesOnItself, EdgesMatch, TargetsFirst, NoDuplicates, CycleFrom, AsGraph, PlainRefs, Complete, Reached;
    hide TargetsBeforeOwners, ClosedTrail, CountedGraph, Clean, HasSite, Acyclic, UnknownSite, RedundantSite;
    var v, edges, done := VisitSchemas(schemas, externals);
    match v {
      case UnknownName(x) => return UnknownType(x);
      case Redundant(x) => return RedundantIndirect(x);
      case Visited =>
    }
    EdgesAreCounted(schemas, externals, edges, done);
    CountedStaysInside(schemas, externals);
    CycleIffCyclic(edges, CountedGraph(schemas, externals), schemas.Keys);
    var sorted := SortDfs(schemas.Keys, edges);
    if sorted.CycleError? {
      SameTrail(edges, CountedGraph(schemas, externals), sorted.trail, sorted.node);
      return RefCycle(sorted.trail, sorted.node);
    }
    SameOrder(edges, CountedGraph(schemas, externals), sorted.order);
    ReachedIsInside(edges, CountedGraph(schemas, externals), schemas.Keys, sorted.order);
    if PlainRefs(schemas) {
      PlainRefsResolve(schemas, externals, done);
    }
    r := Ordered(sorted.order, done);
  }

  lemma CycleIffCyclic(edges: EdgeLists, g: Graph, nodes: set<Name>)
    requires SameEdges(AsGraph(edges), g) && OverNodes(g, nodes)
    ensures (exists n :: n in nodes && CycleFrom(edges, n)) <==> !Acyclic(g)
  {
    hide AsGraph, Reaches, DependsOn, SameEdges;
    var h := AsGraph(edges);
    if n :| n in nodes && CycleFrom(edges, n) {
      var c :| Reaches(h, n, c) && DependsOn(h, c, c);
      SameDependsOn(h, g, c, c);
    }
    if !Acyclic(g) {
      var a :| DependsOn(g, a, a);
      SameDependsOn(h, g, a, a);
      StartsAtNode(g, nodes, a);
      ReachesSplit(h, a, a);
      assert CycleFrom(edges, a);
    }
  }

  lemma StartsAtNode(g: Graph, nodes: set<Name>, a: Name)
    requires OverNodes(g, nodes) && DependsOn(g, a, a)
    ensures a in nodes
  {
    var p :| |p| >= 2 && PathBetween(g, p, a, a);
    assert Edge(g, p[0], p[0 + 1]);
  }

  lemma SameTrail(edges: EdgeLists, g: Graph, trail: seq<Name>, node: Name)
    requires SameEdges(AsGraph(edges), g) && ClosesOnItself(edges, trail, node)
    ensures ClosedTrail(g, trail, node)
  {
    hide AsGraph;
    SamePath(AsGraph(edges), g, trail);
  }

  lemma SameOrder(edges: EdgeLists, g: Graph, order: seq<Name>)
    requires SameEdges(AsGraph(edges), g) && TargetsFirst(edges, order)
    ensures TargetsBeforeOwners(g, order)
  {
    hide AsGraph;
  }

  lemma ReachedIsInside(edges: EdgeLists, g: Graph, nodes: set<Name>, order: seq<Name>)
    requires SameEdges(AsGraph(edges), g) && OverNodes(g, nodes)
    requires forall x :: x in order <==> Reached(edges, nodes, x)
    ensures forall n :: n in order <==> n in nodes
  {
    hide AsGraph, Reaches;
    var h := AsGraph(edges);
    forall x ensures x in order <==> x in nodes {
      if x in order {
        var n :| n in nodes && Reaches(h, n, x);
        assert forall a :: a in nodes && a in h ==> h[a] <= nodes by {
          forall a, b | a in nodes && a in h && b in h[a] ensures b in nodes { assert Edge(h, a, b); }
        }
        ClosedKeepsReach(h, nodes, n, x);
      }
      ReachesSplit(h, x, x);
      assert x in nodes ==> Reached(edges, nodes, x);
    }
  }

  // ---- plain references --------------------------------------------------

  /** Without skipped edges, a chain that runs in circles is a cycle of counted references. */
  lemma PlainRefsResolve(schemas: Schemas, externals: Schemas, done: seq<Resolution>)
    requires PlainRefs(schemas) && Complete(schemas, externals, done)
    requires Acyclic(CountedGraph(schemas, externals))
    ensures forall e :: e in done ==> !e.target.Ref?
  {
    hide CountedGraph, EndsAfter;
    forall e | e in done ensures !e.target.Ref? {
      assert Right(schemas, externals, e) && HasSite(schemas, e.owner, (e.node, e.inArray));
      var k: nat :| EndsAfter(schemas, externals, e.node, k, e.target);
      if e.target.Ref? {
        CircleIsCycle(schemas, externals, e.node, k, e.target);
      }
    }
  }

  /** Plain references never leave the local schemas. */
  lemma {:induction false} PlainStaysLocal(schemas: Schemas, externals: Schemas, local: Schema, k: nat)
    requires PlainRefs(schemas) && local.Ref? && local.ref in schemas
    ensures RefAt(schemas, externals, local, k) ==> NameAt(schemas, externals, local, k) in schemas
    ensures !ExternalAt(schemas, externals, local, k)
  {
    if k > 0 && RefAt(schemas, externals, local, k) {
      PlainStaysLocal(schemas, externals, local, k - 1);
      var n := NameAt(schemas, externals, local, k - 1);
      SchemaItself(schemas, n);
    }
  }

  lemma SchemaItself(schemas: Schemas, n: Name)
    requires n in schemas && schemas[n].Ref?
    ensures HasSite(schemas, n, (schemas[n], false))
  {
    assert StandsAt(schemas[n], [], (schemas[n], false));
  }

  /** Each step of a plain chain after the first is a counted reference. */
  lemma StepIsCounted(schemas: Schemas, externals: Schemas, local: Schema, k: nat)
    requires PlainRefs(schemas) && local.Ref? && local.ref in schemas
    requires RefAt(schemas, externals, local, k) && RefAt(schemas, externals, local, k + 1)
    ensures Edge(CountedGraph(schemas, externals),
                 NameAt(schemas, externals, local, k), NameAt(schemas, externals, local, k + 1))
  {
    PlainStaysLocal(schemas, externals, local, k);
    var n := NameAt(schemas, externals, local, k);
    var at := (schemas[n], false);
    SchemaItself(schemas, n);
    forall j: nat ensures !ExternalAt(schemas, externals, at.0, j) {
      PlainStaysLocal(schemas, externals, at.0, j);
    }
    assert CountedSite(schemas, externals, n, at);
    CountedIsLocal(schemas, externals, n, at.0.ref);
  }

  /** The names followed from step `i` to step `k`. */
  ghost function NamesFrom(schemas: Schemas, externals: Schemas, local: Schema, i: nat, k: nat): seq<Name>
    requires i <= k && forall j: nat :: i <= j <= k ==> RefAt(schemas, externals, local, j)
  {
    seq(k - i + 1, d requires 0 <= d < k - i + 1 => NameAt(schemas, externals, local, i + d))
  }

  lemma CircleIsCycle(schemas: Schemas, externals: Schemas, local: Schema, k: nat, t: Schema)
    requires PlainRefs(schemas) && local.Ref? && local.ref in schemas
    requires EndsAfter(schemas, externals, local, k, t) && t.Ref?
    ensures !Acyclic(CountedGraph(schemas, externals))
  {
    hide PlainRefs, NodeAfter, CountedGraph;
    var g := CountedGraph(schemas, externals);
    var i: nat :| i < k && SameName(schemas, externals, local, i, k);
    forall j: nat | i <= j <= k ensures RefAt(schemas, externals, local, j) {
      LinkIsKnown(schemas, externals, local, k, t, j);
    }
    var p := NamesFrom(schemas, externals, local, i, k);
    forall a, b | 0 <= a < b < |p| && b == a + 1 ensures Edge(g, p[a], p[b]) {
      StepIsCounted(schemas, externals, local, i + a);
    }
    assert PathBetween(g, p, p[0], p[0]);
    assert DependsOn(g, p[0], p[0]);
  }
}
