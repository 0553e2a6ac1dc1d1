// The names a C header writes: the keyword escape of member names, and the
// check that headers built together define no name two ways.
module CNames {
  import opened Common

  // -------------------------------------------------------------------
  // Member names.
  // -------------------------------------------------------------------

  predicate IsKeyword(s: string) {
    s in {
      "auto", "break", "case", "char", "const", "continue", "default", "do", "double", "else", "enum", "extern",
      "float", "for", "goto", "if", "inline", "int", "long", "register", "restrict", "return", "short", "signed",
      "sizeof", "static", "struct", "switch", "typedef", "union", "unsigned", "void", "volatile", "while", "bool",
      "true", "false", "NULL", "alignas", "alignof", "constexpr", "nullptr", "static_assert", "thread_local",
      "typeof", "typeof_unqual", "asm"}
  }

  function MemberName(snake: string): string {
    if IsKeyword(Trimmed(snake)) then snake + "_" else snake
  }

  function AccessorStem(member: string): string {
    if IsKeyword(Trimmed(member)) && member != "" then member[..|member| - 1] else member
  }

  lemma {:induction false} KeywordTrimmed(s: string)
    requires IsKeyword(s)
    ensures s != "" && s[|s| - 1] != '_'
  {
  }

  // A member is never a keyword, and its accessor is named for what it was
  // called before any escape, so no two names share a member.
  lemma {:induction false} StemUndoesEscape(snake: string)
    ensures !IsKeyword(MemberName(snake))
    ensures AccessorStem(MemberName(snake)) == snake
  {
    TrimmedEscape(snake);
    if IsKeyword(MemberName(snake)) { KeywordTrimmed(MemberName(snake)); }
    assert (snake + "_")[..|snake|] == snake;
  }

  lemma {:induction false} MemberNamesDiffer(a: string, b: string)
    ensures MemberName(a) == MemberName(b) ==> a == b
  {
    StemUndoesEscape(a);
    StemUndoesEscape(b);
  }

  // -------------------------------------------------------------------
  // The names of one header.
  // -------------------------------------------------------------------

  datatype Identity = Identity(package: string, key: string, role: string)

  datatype Claim = Claim(what: string, identity: Identity, definition: Option<string>)

  predicate SameEntity(a: Claim, b: Claim) {
    a.identity == b.identity && a.definition == b.definition
  }

  class Claims {
    var byName: map<string, Claim>

    constructor ()
      ensures byName == map[]
    {
      byName := map[];
    }

    // The first claim of a name stands; a second is refused, whatever it is of.
    method ClaimName(name: string, claim: Claim) returns (ok: bool)
      modifies this
      ensures ok <==> name !in old(byName)
      ensures byName == if ok then old(byName)[name := claim] else old(byName)
    {
      ok := name !in byName;
      if ok {
        byName := byName[name := claim];
      }
    }
  }

  // -------------------------------------------------------------------
  // The headers of one build.
  // -------------------------------------------------------------------

  datatype Header = Header(package: string, claims: map<string, Claim>)

  datatype Claimant = Claimant(claim: Claim, package: string)

  predicate Listed(claimants: seq<Claimant>, claim: Claim) {
    exists k :: 0 <= k < |claimants| && SameEntity(claimants[k].claim, claim)
  }

  function AddClaimant(claimants: seq<Claimant>, claim: Claim, package: string): seq<Claimant> {
    if Listed(claimants, claim) then claimants else claimants + [Claimant(claim, package)]
  }

  // Who claims a name, in build order, one claimant for each entity.
  function Claimants(headers: seq<Header>, name: string): seq<Claimant> {
    if headers == [] then []
    else
      var before, last := Claimants(headers[..|headers| - 1], name), headers[|headers| - 1];
      if name in last.claims then AddClaimant(before, last.claims[name], last.package) else before
  }

  // Every claim of the name has one identity and one definition.
  ghost predicate OneEntity(headers: seq<Header>, name: string) {
    forall g, h :: g in headers && h in headers && name in g.claims && name in h.claims ==>
      && g.claims[name].identity == h.claims[name].identity
      && g.claims[name].definition == h.claims[name].definition
  }

  datatype Clash = Clash(name: string, claimants: seq<Claimant>)

  predicate LeastOf(n: string, names: set<string>) {
    n in names && forall m :: m in names && m != n ==> Less(n, m)
  }

  lemma {:induction false} LeastExists(names: set<string>) returns (n: string)
    requires names != {}
    ensures LeastOf(n, names)
  {
    n :| n in names;
    if names != {n} {
      var rest := names - {n};
      var m := LeastExists(rest);
      LessTotal(n, m);
      if Less(m, n) {
        n := m;
      } else {
        forall x | x in names && x != n ensures Less(n, x) {
          if x != m { LessTransitive(n, m, x); }
        }
      }
    }
  }

  // The claimants of every name, header by header.
  method Gather(headers: seq<Header>) returns (claimants: map<string, seq<Claimant>>)
    ensures Gathered(headers, claimants)
  {
    claimants := map[];
    for i := 0 to |headers|
      invariant Gathered(headers[..i], claimants)
    {
      assert headers[..i + 1][..i] == headers[..i];
      var header := headers[i];
      ghost var before := claimants;
      var remaining := header.claims.Keys;
      while remaining != {}
        invariant remaining <= header.claims.Keys
        invariant forall n :: n in remaining || n !in header.claims ==> Held(claimants, n) == Held(before, n)
        invariant forall n :: n in header.claims && n !in remaining ==>
                    Held(claimants, n) == AddClaimant(Held(before, n), header.claims[n], header.package)
        decreases |remaining|
      {
        var name :| name in remaining;
        remaining := remaining - {name};
        claimants := claimants[name := AddClaimant(Held(claimants, name), header.claims[name], header.package)];
      }
    }
    assert headers[..|headers|] == headers;
  }

  // The names with two claimants or more among `names`, in order.
  ghost predicate Clashing(claimants: map<string, seq<Claimant>>, names: set<string>, clashes: seq<Clash>) {
    && (forall i, j :: 0 <= i < j < |clashes| ==> Less(clashes[i].name, clashes[j].name))
    && (forall k :: 0 <= k < |clashes| ==>
          && clashes[k].name in names && |clashes[k].claimants| > 1
          && clashes[k].claimants == Held(claimants, clashes[k].name))
    && (forall n :: n in names && |Held(claimants, n)| > 1 ==> exists k :: 0 <= k < |clashes| && clashes[k].name == n)
  }

  lemma {:induction false} ClashingOneMore(
    claimants: map<string, seq<Claimant>>, names: set<string>, clashes: seq<Clash>, name: string)
    requires Clashing(claimants, names, clashes) && AllBelow(names, {name})
    ensures |Held(claimants, name)| > 1 ==>
              Clashing(claimants, names + {name}, clashes + [Clash(name, Held(claimants, name))])
    ensures |Held(claimants, name)| <= 1 ==> Clashing(claimants, names + {name}, clashes)
  {
    if |Held(claimants, name)| > 1 { ClashAdded(claimants, names, clashes, Clash(name, Held(claimants, name))); }
  }

  lemma {:induction false} ClashAdded(
    claimants: map<string, seq<Claimant>>, names: set<string>, clashes: seq<Clash>, clash: Clash)
    requires Clashing(claimants, names, clashes) && AllBelow(names, {clash.name})
    requires clash.claimants == Held(claimants, clash.name) && |clash.claimants| > 1
    ensures Clashing(claimants, names + {clash.name}, clashes + [clash])
  {
    var more := clashes + [clash];
    assert more[|clashes|] == clash && forall k :: 0 <= k < |clashes| ==> more[k] == clashes[k];
    forall n | n in names + {clash.name} && |Held(claimants, n)| > 1
      ensures exists k :: 0 <= k < |more| && more[k].name == n
    {
      if n in names {
        var k :| 0 <= k < |clashes| && clashes[k].name == n;
        assert more[k].name == n;
      } else {
        assert more[|clashes|].name == n;
      }
    }
  }

  ghost predicate AllBelow(low: set<string>, high: set<string>) {
    forall m, n :: m in low && n in high ==> Less(m, n)
  }

  lemma {:induction false} NextBelow(done: set<string>, rest: set<string>, name: string)
    requires AllBelow(done, rest) && LeastOf(name, rest)
    ensures AllBelow(done, {name}) && AllBelow(done + {name}, rest - {name})
  {
    forall m | m in done ensures Less(m, name) {
      assert name in rest;
    }
  }

  // The clashes of a build, in name order.
  method CheckCNames(headers: seq<Header>) returns (clashes: seq<Clash>)
    ensures forall i, j :: 0 <= i < j < |clashes| ==> Less(clashes[i].name, clashes[j].name)
    ensures forall k :: 0 <= k < |clashes| ==>
              |clashes[k].claimants| > 1 && clashes[k].claimants == Claimants(headers, clashes[k].name)
    ensures forall name :: |Claimants(headers, name)| > 1 ==> exists k :: 0 <= k < |clashes| && clashes[k].name == name
  {
    var claimants := Gather(headers);
    clashes := [];
    var rest := claimants.Keys;
    ghost var done: set<string> := {};
    while rest != {}
      invariant done + rest == claimants.Keys && Clashing(claimants, done, clashes)
      invariant AllBelow(done, rest)
      decreases |rest|
    {
      ghost var least := LeastExists(rest);
      var name :| LeastOf(name, rest);
      NextBelow(done, rest, name);
      ClashingOneMore(claimants, done, clashes, name);
      rest, done := rest - {name}, done + {name};
      if |Held(claimants, name)| > 1 {
        clashes := clashes + [Clash(name, Held(claimants, name))];
      }
    }
    forall name | |Claimants(headers, name)| > 1 ensures name in done {
      assert Held(claimants, name) == Claimants(headers, name);
    }
  }

  function Held(claimants: map<string, seq<Claimant>>, name: string): seq<Claimant> {
    if name in claimants then claimants[name] else []
  }

  ghost predicate Gathered(headers: seq<Header>, claimants: map<string, seq<Claimant>>) {
    forall name :: Held(claimants, name) == Claimants(headers, name)
  }

  // -------------------------------------------------------------------
  // What a clash is.
  // -------------------------------------------------------------------

  // The claimants are the headers' claims: each entity once, named by its first
  // header.
  lemma {:induction false} ClaimantsAreTheEntities(headers: seq<Header>, name: string)
    ensures forall c :: c in Claimants(headers, name) ==>
              exists h :: h in headers && name in h.claims && c == Claimant(h.claims[name], h.package)
    ensures forall h :: h in headers && name in h.claims ==>
              exists k :: 0 <= k < |Claimants(headers, name)|
                && Claimants(headers, name)[k].claim.identity == h.claims[name].identity
                && Claimants(headers, name)[k].claim.definition == h.claims[name].definition
    ensures forall i, j :: 0 <= i < j < |Claimants(headers, name)| ==>
              || Claimants(headers, name)[i].claim.identity != Claimants(headers, name)[j].claim.identity
              || Claimants(headers, name)[i].claim.definition != Claimants(headers, name)[j].claim.definition
  {
    EntitiesAreListed(headers, name);
    forall h | h in headers && name in h.claims
      ensures exists k :: 0 <= k < |Claimants(headers, name)|
                && Claimants(headers, name)[k].claim.identity == h.claims[name].identity
                && Claimants(headers, name)[k].claim.definition == h.claims[name].definition
    {
      assert Listed(Claimants(headers, name), h.claims[name]);
    }
  }

  lemma {:induction false} EntitiesAreListed(headers: seq<Header>, name: string)
    ensures forall c :: c in Claimants(headers, name) ==>
              exists h :: h in headers && name in h.claims && c == Claimant(h.claims[name], h.package)
    ensures forall h :: h in headers && name in h.claims ==> Listed(Claimants(headers, name), h.claims[name])
    ensures forall i, j :: 0 <= i < j < |Claimants(headers, name)| ==>
              !SameEntity(Claimants(headers, name)[i].claim, Claimants(headers, name)[j].claim)
  {
    if headers != [] {
      var front, last := headers[..|headers| - 1], headers[|headers| - 1];
      EntitiesAreListed(front, name);
      assert headers == front + [last];
      var before, now := Claimants(front, name), Claimants(headers, name);
      forall h | h in headers && name in h.claims ensures Listed(now, h.claims[name]) {
        if h in front {
          var k :| 0 <= k < |before| && SameEntity(before[k].claim, h.claims[name]);
          assert now[k] == before[k];
        } else if now != before {
          assert now[|before|].claim == h.claims[name];
        }
      }
    }
  }

  // Two claimants are two headers' claims, of two entities.
  lemma {:induction false} TwoClaimantsTwoEntities(headers: seq<Header>, name: string) returns (g: Header, h: Header)
    requires |Claimants(headers, name)| > 1
    ensures g in headers && h in headers && name in g.claims && name in h.claims
    ensures g.claims[name].identity != h.claims[name].identity || g.claims[name].definition != h.claims[name].definition
  {
    var claimants := Claimants(headers, name);
    ClaimantsAreTheEntities(headers, name);
    assert claimants[0] in claimants && claimants[1] in claimants;
    g :| g in headers && name in g.claims && claimants[0] == Claimant(g.claims[name], g.package);
    h :| h in headers && name in h.claims && claimants[1] == Claimant(h.claims[name], h.package);
  }

  // Two entities are listed apart.
  lemma {:induction false} TwoEntitiesTwoClaimants(headers: seq<Header>, name: string, g: Header, h: Header)
    requires g in headers && h in headers && name in g.claims && name in h.claims
    requires g.claims[name].identity != h.claims[name].identity ||
             g.claims[name].definition != h.claims[name].definition
    ensures |Claimants(headers, name)| > 1
  {
    var claimants := Claimants(headers, name);
    EntitiesAreListed(headers, name);
    assert Listed(claimants, g.claims[name]) && Listed(claimants, h.claims[name]);
    var i :| 0 <= i < |claimants| && SameEntity(claimants[i].claim, g.claims[name]);
    var j :| 0 <= j < |claimants| && SameEntity(claimants[j].claim, h.claims[name]);
    assert i != j;
  }

  // A name clashes exactly when two headers claim it for two entities.
  lemma {:induction false} ClashIffTwoEntities(headers: seq<Header>, name: string)
    ensures |Claimants(headers, name)| > 1 <==> !OneEntity(headers, name)
  {
    if |Claimants(headers, name)| > 1 {
      var g, h := TwoClaimantsTwoEntities(headers, name);
    }
    if !OneEntity(headers, name) {
      var g, h :|
        && g in headers && h in headers && name in g.claims && name in h.claims
        && (g.claims[name].identity != h.claims[name].identity ||
           g.claims[name].definition != h.claims[name].definition);
      TwoEntitiesTwoClaimants(headers, name, g, h);
    }
  }

  // Whether a build is refused, and for which names, does not depend on the
  // order of its packages.
  lemma {:induction false} OrderDoesNotMatter(a: seq<Header>, b: seq<Header>, name: string)
    requires multiset(a) == multiset(b)
    ensures |Claimants(a, name)| > 1 <==> |Claimants(b, name)| > 1
  {
    ClashIffTwoEntities(a, name);
    ClashIffTwoEntities(b, name);
    forall h ensures h in a <==> h in b {
      assert h in a <==> h in multiset(a);
      assert h in b <==> h in multiset(b);
    }
  }
}
