/** cursor_scan.go's cursorColumnAliases: the result columns that carry cursor keys. */
module CursorAliases {
  import opened Strings

  function BaseAlias(index: nat): string { "__gotq_cursor_" + Decimal(index) }

  // The reserved names that extending a candidate of this length could still meet.
  function Ahead(length: nat, reserved: set<string>): set<string> { set r | r in reserved && |r| >= length }

  lemma ExtendingPasses(candidate: string, reserved: set<string>)
    requires candidate in reserved
    ensures |Ahead(|candidate| + 1, reserved)| < |Ahead(|candidate|, reserved)|
  {
    var now, next := Ahead(|candidate|, reserved), Ahead(|candidate| + 1, reserved);
    assert candidate in now && next <= now - {candidate};
    Subset(next, now - {candidate});
  }

  lemma {:induction false} Subset(a: set<string>, b: set<string>)
    requires a <= b
    ensures |a| <= |b|
  {
    assert b == a + (b - a) && |b| == |a| + |b - a|;
  }

  /** A candidate with as few underscores behind it as make it free. */
  ghost predicate Frees(candidate: string, reserved: set<string>, alias: string) {
    && alias !in reserved && candidate <= alias
    && (forall k :: |candidate| <= k < |alias| ==> alias[k] == '_' && alias[..k] in reserved)
  }

  ghost function Taken(columns: set<string>, earlier: seq<string>): set<string> { columns + set a | a in earlier }

  // Each alias is its base name freed from the columns and the aliases before it.
  ghost predicate AllFreed(columns: set<string>, aliases: seq<string>) {
    forall i :: 0 <= i < |aliases| ==> Frees(BaseAlias(i), Taken(columns, aliases[..i]), aliases[i])
  }

  method CursorColumnAliases(columns: set<string>, count: nat) returns (aliases: seq<string>)
    ensures |aliases| == count && AllFreed(columns, aliases)
  {
    aliases := [];
    var reserved := columns;
    for index := 0 to count
      invariant |aliases| == index && reserved == Taken(columns, aliases) && AllFreed(columns, aliases)
    {
      hide AllFreed, Frees, BaseAlias;
      var candidate := FreeAlias(BaseAlias(index), reserved);
      FreedStep(columns, aliases, candidate);
      aliases := aliases + [candidate];
      reserved := reserved + {candidate};
    }
  }

  lemma FreedStep(columns: set<string>, aliases: seq<string>, candidate: string)
    requires AllFreed(columns, aliases) && Frees(BaseAlias(|aliases|), Taken(columns, aliases), candidate)
    ensures AllFreed(columns, aliases + [candidate])
  {
    hide Frees, BaseAlias;
    var more := aliases + [candidate];
    forall i | 0 <= i < |more| ensures Frees(BaseAlias(i), Taken(columns, more[..i]), more[i]) {
      assert more[..i] == aliases[..i] && aliases[..|aliases|] == aliases;
    }
  }

  /** Freed aliases are pairwise distinct and meet no model column. */
  lemma FreedIsDistinct(columns: set<string>, aliases: seq<string>)
    requires AllFreed(columns, aliases)
    ensures forall i :: 0 <= i < |aliases| ==> aliases[i] !in columns
    ensures forall i, j :: 0 <= i < j < |aliases| ==> aliases[i] != aliases[j]
  {
    hide BaseAlias;
    forall i, j | 0 <= i < j < |aliases| ensures aliases[i] != aliases[j] {
      assert aliases[i] in aliases[..j];
      assert Frees(BaseAlias(j), Taken(columns, aliases[..j]), aliases[j]);
    }
  }

  method FreeAlias(base: string, reserved: set<string>) returns (candidate: string)
    ensures Frees(base, reserved, candidate)
  {
    candidate := base;
    while candidate in reserved
      invariant base <= candidate
      invariant forall k :: |base| <= k < |candidate| ==> candidate[k] == '_' && candidate[..k] in reserved
      decreases |Ahead(|candidate|, reserved)|
    {
      ExtendingPasses(candidate, reserved);
      assert (candidate + "_")[..|candidate|] == candidate;
      assert forall k :: |base| <= k < |candidate| ==> (candidate + "_")[..k] == candidate[..k];
      candidate := candidate + "_";
    }
  }
}
