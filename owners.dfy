/** OWNERS files and OWNERS_ALIASES files (pkg/owners/types.go), and the expansion of
    reviewer/approver names through the alias map. */
module Owners {

  /** An OWNERS file: the reviewer, approver and emeritus-approver handles, and the
      per-path filters (a path pattern to a list of handles). */
  datatype Owners = Owners(
    reviewers: seq<string>,
    approvers: seq<string>,
    emeritusApprovers: seq<string>,
    filters: map<string, seq<string>>)

  /** An OWNERS_ALIASES file: each alias names a list of handles. */
  datatype OwnersAliases = OwnersAliases(aliases: map<string, seq<string>>)

  /** What one input name contributes to the resolved list: the alias's whole target
      list when the name is an alias key, otherwise the name itself. */
  function Expansion(a: OwnersAliases, name: string): seq<string>
  {
    if name in a.aliases then a.aliases[name] else [name]
  }

  /** The resolved list of `names`, as the append loop of Resolve builds it. */
  function Resolved(a: OwnersAliases, names: seq<string>): seq<string>
    decreases |names|
  {
    if names == [] then []
    else Resolved(a, names[..|names| - 1]) + Expansion(a, names[|names| - 1])
  }

  /** How many entries a name yields: the length of its target list for an alias
      key, one for any other name. Summed from the front, independently of Resolved. */
  function Weight(a: OwnersAliases, names: seq<string>): nat
    decreases |names|
  {
    if names == [] then 0
    else (if names[0] in a.aliases then |a.aliases[names[0]]| else 1) + Weight(a, names[1..])
  }

  /** OwnersAliases.Resolve: walks the names in order and appends, for each, either the
      alias's targets or the name unchanged. */
  method Resolve(a: OwnersAliases, aliases: seq<string>) returns (resolved: seq<string>)
    ensures resolved == Resolved(a, aliases)
    ensures |resolved| == Weight(a, aliases)
  {
    resolved := [];
    var i := 0;
    while i < |aliases|
      invariant 0 <= i <= |aliases|
      invariant resolved == Resolved(a, aliases[..i])
    {
      var alias := aliases[i];
      assert aliases[..i + 1][..i] == aliases[..i];
      if alias !in a.aliases {
        resolved := resolved + [alias];
        i := i + 1;
        continue;
      }
      resolved := resolved + a.aliases[alias];
      i := i + 1;
    }
    assert aliases[..i] == aliases;
    ResolvedLength(a, aliases);
  }

  /** A single name resolves to the alias's stored target list, in its stored order,
      or to itself when it is not an alias key. */
  lemma ResolvedSingle(a: OwnersAliases, name: string)
    ensures name in a.aliases ==> Resolved(a, [name]) == a.aliases[name]
    ensures name !in a.aliases ==> Resolved(a, [name]) == [name]
  {
    assert [name][..0] == [];
  }

  /** Resolution distributes over concatenation: the output order follows the input
      order, and no entry of one part is merged with, or removed because of, the other. */
  lemma {:induction false} ResolvedConcat(a: OwnersAliases, x: seq<string>, y: seq<string>)
    ensures Resolved(a, x + y) == Resolved(a, x) + Resolved(a, y)
    decreases |y|
  {
    if y == [] {
      assert x + y == x;
    } else {
      var init, last := y[..|y| - 1], y[|y| - 1];
      assert y == init + [last];
      assert (x + y)[..|x + y| - 1] == x + init;
      calc {
        Resolved(a, x + y);
        Resolved(a, x + init) + Expansion(a, last);
        { ResolvedConcat(a, x, init); }
        (Resolved(a, x) + Resolved(a, init)) + Expansion(a, last);
        Resolved(a, x) + (Resolved(a, init) + Expansion(a, last));
        Resolved(a, x) + Resolved(a, y);
      }
    }
  }

  /** The entry at position i of the input is replaced in place: everything before it
      resolves first, then its expansion, then everything after it. */
  lemma InPlace(a: OwnersAliases, names: seq<string>, i: nat)
    requires i < |names|
    ensures Resolved(a, names) ==
            Resolved(a, names[..i])
            + (if names[i] in a.aliases then a.aliases[names[i]] else [names[i]])
            + Resolved(a, names[i + 1..])
  {
    assert names == names[..i] + [names[i]] + names[i + 1..];
    ResolvedConcat(a, names[..i] + [names[i]], names[i + 1..]);
    ResolvedConcat(a, names[..i], [names[i]]);
    ResolvedSingle(a, names[i]);
  }

  /** The output has one entry per non-alias name and |targets| entries per alias key. */
  lemma {:induction false} ResolvedLength(a: OwnersAliases, names: seq<string>)
    ensures |Resolved(a, names)| == Weight(a, names)
    decreases |names|
  {
    if names != [] {
      assert names == [names[0]] + names[1..];
      ResolvedConcat(a, [names[0]], names[1..]);
      ResolvedSingle(a, names[0]);
      ResolvedLength(a, names[1..]);
    }
  }

  /** A handle appears in the output exactly when some input name is that handle and
      not an alias key, or is an alias key whose targets contain it. */
  lemma {:induction false} ResolvedMembership(a: OwnersAliases, names: seq<string>, h: string)
    ensures h in Resolved(a, names) <==>
            exists i :: 0 <= i < |names| &&
              ((names[i] in a.aliases && h in a.aliases[names[i]]) ||
               (names[i] !in a.aliases && h == names[i]))
    decreases |names|
  {
    if names != [] {
      var init, last := names[..|names| - 1], names[|names| - 1];
      ResolvedMembership(a, init, h);
      assert forall i :: 0 <= i < |init| ==> init[i] == names[i];
    }
  }

  /** Without any alias key among the names, resolution is the identity: nothing is
      sorted, de-duplicated or dropped, and the empty list stays empty. */
  lemma {:induction false} NoAliasIsIdentity(a: OwnersAliases, names: seq<string>)
    requires forall i :: 0 <= i < |names| ==> names[i] !in a.aliases
    ensures Resolved(a, names) == names
    decreases |names|
  {
    if names != [] {
      var init := names[..|names| - 1];
      assert names == init + [names[|names| - 1]];
      NoAliasIsIdentity(a, init);
    }
  }

  /** Expansion is one level deep: an alias key's place in the output holds its target
      list verbatim, so a target that is itself an alias key is emitted as it is and
      not expanded again. */
  lemma OneLevelOnly(a: OwnersAliases, names: seq<string>, i: nat)
    requires i < |names| && names[i] in a.aliases
    ensures var start := |Resolved(a, names[..i])|;
            && start + |a.aliases[names[i]]| <= |Resolved(a, names)|
            && Resolved(a, names)[start..start + |a.aliases[names[i]]|] == a.aliases[names[i]]
    ensures forall t :: t in a.aliases[names[i]] && t in a.aliases ==> t in Resolved(a, names)
  {
    InPlace(a, names, i);
    var before, targets := Resolved(a, names[..i]), a.aliases[names[i]];
    var r := Resolved(a, names);
    assert r == before + targets + Resolved(a, names[i + 1..]);
    assert r[|before|..|before| + |targets|] == targets;
  }

  /** Example: with "team" naming "subteam", itself an alias, "subteam" reaches the
      output and "bob" does not. */
  lemma OneLevelExample()
    ensures var a := OwnersAliases(map["team" := ["subteam", "alice"], "subteam" := ["bob"]]);
            Resolved(a, ["team", "carol", "team"]) == ["subteam", "alice", "carol", "subteam", "alice"]
  {
    var a := OwnersAliases(map["team" := ["subteam", "alice"], "subteam" := ["bob"]]);
    var names := ["team", "carol", "team"];
    assert names == ["team"] + ["carol"] + ["team"];
    ResolvedConcat(a, ["team"] + ["carol"], ["team"]);
    ResolvedConcat(a, ["team"], ["carol"]);
    ResolvedSingle(a, "team");
    ResolvedSingle(a, "carol");
  }
}
