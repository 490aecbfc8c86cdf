/**
 The general entities of an ezXML document: the check for circular
 declarations, and what it keeps over any sequence of declarations.
 */
module XmlEntities {
  import opened CText

  /** A declared entity; its name ends in ';', as the parser stores it. */
  datatype Entity = Entity(name: string, value: string)

  /** The first entity whose name starts `p`, the text behind an ampersand. */
  function Match(p: string, ents: seq<Entity>): (b: nat)
    ensures b <= |ents|
    ensures b < |ents| ==> ents[b].name <= p
    ensures forall i :: 0 <= i < b ==> !(ents[i].name <= p)
  {
    if ents == [] then 0 else if ents[0].name <= p then 0 else 1 + Match(p, ents[1..])
  }

  /** `s` refers to `name` at `k`. */
  predicate Refers(s: string, k: int, name: string) {
    0 <= k < |s| && s[k] == '&' && name <= s[k + 1..]
  }

  /** `s` refers at `k` to the entity at `b`. */
  predicate Resolves(s: string, k: int, ents: seq<Entity>, b: int) {
    0 <= k < |s| && s[k] == '&' && 0 <= b < |ents| && Match(s[k + 1..], ents) == b
  }

  /** `name` is reached from `s` through `depth` entities. */
  ghost predicate ReachedIn(name: string, s: string, ents: seq<Entity>, depth: nat)
    decreases depth
  {
    if depth == 0 then exists k :: Refers(s, k, name)
    else exists k, b :: Resolves(s, k, ents, b) && ReachedIn(name, ents[b].value, ents, depth - 1)
  }

  ghost predicate Reached(name: string, s: string, ents: seq<Entity>) {
    exists depth: nat :: ReachedIn(name, s, ents, depth)
  }

  /** Every entity refers to entities of lower rank only. */
  ghost predicate Ranked(ents: seq<Entity>, rank: seq<nat>) {
    && |rank| == |ents|
    && forall i, k, b :: 0 <= i < |ents| && Resolves(ents[i].value, k, ents, b) ==> rank[b] < rank[i]
  }

  /** The pairs of an entity and one it refers to. */
  ghost function Links(ents: seq<Entity>): set<(int, int)> {
    set i, j | 0 <= i < |ents| && 0 <= j < |ents| && (exists k :: Resolves(ents[i].value, k, ents, j)) :: (i, j)
  }

  ghost predicate Leads(links: set<(int, int)>, i: int, j: int, steps: nat)
    decreases steps
  {
    if steps == 0 then (i, j) in links
    else exists m :: (i, m) in links && Leads(links, m, j, steps - 1)
  }

  /** No entity contains a reference to itself, directly or indirectly (section 4.1 of XML 1.0). */
  ghost predicate Acyclic(ents: seq<Entity>) {
    forall i: int, steps: nat :: !Leads(Links(ents), i, i, steps)
  }

  lemma {:induction false} RankFalls(links: set<(int, int)>, rank: seq<nat>, i: int, j: int, steps: nat)
    requires forall e <- links :: 0 <= e.0 < |rank| && 0 <= e.1 < |rank| && rank[e.1] < rank[e.0]
    requires Leads(links, i, j, steps)
    ensures 0 <= i < |rank| && 0 <= j < |rank| && rank[j] < rank[i]
    decreases steps
  {
    if steps == 0 {
      assert (i, j) in links;
    } else {
      var m :| (i, m) in links && Leads(links, m, j, steps - 1);
      RankFalls(links, rank, m, j, steps - 1);
    }
  }

  lemma RankedAcyclic(ents: seq<Entity>, rank: seq<nat>)
    requires Ranked(ents, rank)
    ensures Acyclic(ents)
  {
    forall i: int, steps: nat
      ensures !Leads(Links(ents), i, i, steps)
    {
      if Leads(Links(ents), i, i, steps) {
        RankFalls(Links(ents), rank, i, i, steps);
      }
    }
  }

  // ----- ezxml_ent_ok -----

  /** `s` refers to the name at `k`, or reaches it through the entity it refers to there. */
  ghost predicate ReachedAt(name: string, s: string, ents: seq<Entity>, k: int) {
    Refers(s, k, name) || exists b :: Resolves(s, k, ents, b) && Reached(name, ents[b].value, ents)
  }

  lemma ReachedIs(name: string, s: string, ents: seq<Entity>)
    ensures Reached(name, s, ents) <==> exists k :: 0 <= k < |s| && ReachedAt(name, s, ents, k)
  {
    if Reached(name, s, ents) {
      var depth: nat :| ReachedIn(name, s, ents, depth);
      if depth == 0 {
        var k :| Refers(s, k, name);
        assert ReachedAt(name, s, ents, k);
      } else {
        var k, b :| Resolves(s, k, ents, b) && ReachedIn(name, ents[b].value, ents, depth - 1);
        assert Reached(name, ents[b].value, ents);
        assert ReachedAt(name, s, ents, k);
      }
    }
    if k :| 0 <= k < |s| && ReachedAt(name, s, ents, k) {
      if Refers(s, k, name) {
        assert ReachedIn(name, s, ents, 0);
      } else {
        var b :| Resolves(s, k, ents, b) && Reached(name, ents[b].value, ents);
        var depth: nat :| ReachedIn(name, ents[b].value, ents, depth);
        assert ReachedIn(name, s, ents, depth + 1);
      }
    }
  }

  /** One reference of the check. */
  method EntOkAt(name: string, s: string, at: nat, ents: seq<Entity>, ghost rank: seq<nat>, ghost bound: nat)
    returns (ok: bool)
    requires Ranked(ents, rank) && at < |s| && s[at] == '&'
    requires forall k, b :: Resolves(s, k, ents, b) ==> rank[b] < bound
    ensures ok <==> !ReachedAt(name, s, ents, at)
    decreases bound, 0
  {
    if name <= s[at + 1..] {
      return false;
    }
    var i := Match(s[at + 1..], ents);
    if i == |ents| {
      return true;
    }
    assert Resolves(s, at, ents, i);
    ok := EntOk(name, ents[i].value, ents, rank, rank[i]);
  }

  /**
   `ezxml_ent_ok`. The check fails exactly when the name is reached from the value; that the entities declared so far
   are ranked makes its recursion end.
   */
  method EntOk(name: string, s: string, ents: seq<Entity>, ghost rank: seq<nat>, ghost bound: nat) returns (ok: bool)
    requires Ranked(ents, rank)
    requires forall k, b :: Resolves(s, k, ents, b) ==> rank[b] < bound
    ensures ok <==> !Reached(name, s, ents)
    decreases bound, 1
  {
    ReachedIs(name, s, ents);
    ok := true;
    var at := 0;
    while at < |s| && ok
      invariant at <= |s|
      invariant ok ==> forall k :: 0 <= k < at ==> !ReachedAt(name, s, ents, k)
      invariant !ok ==> exists k :: 0 <= k < |s| && ReachedAt(name, s, ents, k)
    {
      if s[at] == '&' {
        ok := EntOkAt(name, s, at, ents, rank, bound);
      }
      at := at + 1;
    }
  }

  // ----- declarations -----

  /** A later declaration changes no reference that is already resolved: the first declaration of a name wins. */
  lemma {:induction false} MatchAdd(p: string, ents: seq<Entity>, e: Entity)
    ensures Match(p, ents + [e]) == if Match(p, ents) < |ents| then Match(p, ents)
                                    else if e.name <= p then |ents| else |ents| + 1
  {
    if ents != [] {
      assert (ents + [e])[1..] == ents[1..] + [e];
      MatchAdd(p, ents[1..], e);
    } else {
      assert ents + [e] == [e];
    }
  }

  lemma ReachStep(name: string, s: string, ents: seq<Entity>, k: int, b: int)
    requires Resolves(s, k, ents, b) && Reached(name, ents[b].value, ents)
    ensures Reached(name, s, ents)
  {
    assert ReachedAt(name, s, ents, k);
    ReachedIs(name, s, ents);
  }

  /** A new entity ranks above all that do not reach it, and below all that do. */
  ghost function NewRank(ents: seq<Entity>, rank: seq<nat>, name: string, bound: nat): (r: seq<nat>)
    requires |rank| == |ents|
    ensures |r| == |ents| + 1
  {
    seq(|ents|, i requires 0 <= i < |ents| => rank[i] + if Reached(name, ents[i].value, ents) then bound + 1 else 0)
    + [bound]
  }

  ghost predicate Below(rank: seq<nat>, bound: nat) {
    forall i :: 0 <= i < |rank| ==> rank[i] < bound
  }

  lemma OneMoreRanked(ents: seq<Entity>, rank: seq<nat>, e: Entity, bound: nat, i: int, k: int, b: int)
    requires Ranked(ents, rank) && Below(rank, bound) && !Reached(e.name, e.value, ents)
    requires 0 <= i <= |ents| && Resolves((ents + [e])[i].value, k, ents + [e], b)
    ensures NewRank(ents, rank, e.name, bound)[b] < NewRank(ents, rank, e.name, bound)[i]
  {
    var s := (ents + [e])[i].value;
    MatchAdd(s[k + 1..], ents, e);
    if b == |ents| {
      assert Refers(s, k, e.name);
      assert ReachedIn(e.name, s, ents, 0);
    } else {
      assert Resolves(s, k, ents, b);
      if Reached(e.name, ents[b].value, ents) {
        ReachStep(e.name, s, ents, k, b);
      }
    }
  }

  lemma DeclaredRanked(ents: seq<Entity>, rank: seq<nat>, e: Entity, bound: nat)
    requires Ranked(ents, rank) && Below(rank, bound) && !Reached(e.name, e.value, ents)
    ensures Ranked(ents + [e], NewRank(ents, rank, e.name, bound))
    ensures Below(NewRank(ents, rank, e.name, bound), 2 * bound + 1)
  {
    forall i, k, b | 0 <= i < |ents + [e]| && Resolves((ents + [e])[i].value, k, ents + [e], b)
      ensures NewRank(ents, rank, e.name, bound)[b] < NewRank(ents, rank, e.name, bound)[i]
    {
      OneMoreRanked(ents, rank, e, bound, i, k, b);
    }
  }

  /** The entities every document starts with. */
  const DEFAULTS: seq<Entity> := [
    Entity("lt;", "&#60;"), Entity("gt;", "&#62;"), Entity("quot;", "&#34;"), Entity("apos;", "&#39;"),
    Entity("amp;", "&#38;")
  ]

  lemma NoDefault(p: string)
    requires p != "" && p[0] == '#'
    ensures Match(p, DEFAULTS) == |DEFAULTS|
  {
    var b := Match(p, DEFAULTS);
    assert forall i :: 0 <= i < |DEFAULTS| ==> DEFAULTS[i].name[0] != '#';
  }

  lemma DefaultsRanked()
    ensures Ranked(DEFAULTS, [0, 0, 0, 0, 0])
  {
    forall i, k, b | 0 <= i < |DEFAULTS|
      ensures !Resolves(DEFAULTS[i].value, k, DEFAULTS, b)
    {
      var s := DEFAULTS[i].value;
      assert 0 <= k < |s| && s[k] == '&' ==> k == 0;
      assert s[1..][0] == '#';
      NoDefault(s[1..]);
    }
  }

  /** The `i`th declaration is not circular after those before it. */
  ghost predicate Fine(ents: seq<Entity>, decls: seq<Entity>, i: nat) {
    i < |decls| && !Reached(decls[i].name, decls[i].value, ents + decls[..i])
  }

  class Doctype {
    var ents: seq<Entity>
    ghost var rank: seq<nat>
    ghost var bound: nat

    ghost predicate Valid()
      reads this
    {
      Ranked(ents, rank) && Below(rank, bound) && DEFAULTS <= ents
    }

    constructor ()
      ensures Valid() && ents == DEFAULTS
    {
      ents, rank, bound := DEFAULTS, [0, 0, 0, 0, 0], 1;
      new;
      DefaultsRanked();
    }

    /** The part of `ezxml_internal_dtd` that declares one general entity, its value decoded. */
    method Declare(name: string, value: string) returns (ok: bool)
      requires Valid()
      modifies this
      ensures Valid() && Acyclic(ents)
      ensures ok <==> !old(Reached(name, value, ents))
      ensures ents == if ok then old(ents) + [Entity(name, value)] else old(ents)
    {
      ok := EntOk(name, value, ents, rank, bound);
      if ok {
        DeclaredRanked(ents, rank, Entity(name, value), bound);
        rank := NewRank(ents, rank, name, bound);
        ents, bound := ents + [Entity(name, value)], 2 * bound + 1;
      }
      RankedAcyclic(ents, rank);
    }

    /** The declarations of a document, up to the first circular one. */
    method DeclareAll(decls: seq<Entity>) returns (n: nat)
      requires Valid()
      modifies this
      ensures Valid() && Acyclic(ents) && n <= |decls| && ents == old(ents) + decls[..n]
      ensures (forall i :: 0 <= i < n ==> Fine(old(ents), decls, i)) && (n < |decls| ==> !Fine(old(ents), decls, n))
    {
      n := 0;
      var ok := true;
      while n < |decls| && ok
        invariant Valid() && n <= |decls| && ents == old(ents) + decls[..n]
        invariant forall i :: 0 <= i < n ==> Fine(old(ents), decls, i)
        invariant !ok ==> n < |decls| && !Fine(old(ents), decls, n)
        decreases |decls| - n, ok
      {
        ok := Declare(decls[n].name, decls[n].value);
        if ok {
          assert decls[..n + 1] == decls[..n] + [decls[n]];
          n := n + 1;
        }
      }
      RankedAcyclic(ents, rank);
    }
  }
}