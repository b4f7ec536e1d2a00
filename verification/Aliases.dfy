/** validator.go's alias counter: gotq_rel_N for the next N whose name is free. */
module Aliases {
  import opened Strings

  function AliasName(n: nat): string { "gotq_rel_" + Decimal(n) }

  // gorm_compiler.go derives the join-table alias from the target's alias.
  function JoinAlias(alias: string): string { alias + "_join" }

  // The counter starts at 1, so gotq_rel_0_join is nobody's join alias.
  ghost predicate IsJoinAlias(name: string) { exists n: nat :: n > 0 && name == JoinAlias(AliasName(n)) }

  lemma AliasNameInjective(a: nat, b: nat)
    requires AliasName(a) == AliasName(b)
    ensures a == b
  {
    assert AliasName(a)[9..] == Decimal(a) && AliasName(b)[9..] == Decimal(b);
    DecimalInjective(a, b);
  }

  /** An alias is never a join alias: one ends in a digit, the other does not. */
  lemma AliasIsNoJoinAlias(n: nat)
    ensures !IsJoinAlias(AliasName(n))
  {
    var name := AliasName(n);
    assert IsDigit(name[|name| - 1]);
    forall m: nat ensures name != JoinAlias(AliasName(m)) {
      var joined := JoinAlias(AliasName(m));
      assert joined[|joined| - 1] == 'n';
    }
  }

  // The reserved names the counter can still run into.
  ghost function Obstacles(next: nat, reserved: set<string>): set<string> {
    set s | s in reserved && exists k: nat :: k > next && s == AliasName(k)
  }

  lemma ObstacleCleared(next: nat, reserved: set<string>)
    requires AliasName(next + 1) in reserved
    ensures Obstacles(next + 1, reserved) < Obstacles(next, reserved)
  {
    assert AliasName(next + 1) in Obstacles(next, reserved);
    if AliasName(next + 1) in Obstacles(next + 1, reserved) {
      var k: nat :| k > next + 1 && AliasName(next + 1) == AliasName(k);
      AliasNameInjective(next + 1, k);
    }
  }

  /** The number alias() settles on: the first free one after the counter. */
  function NextFree(next: nat, reserved: set<string>): (n: nat)
    ensures n > next && AliasName(n) !in reserved
    ensures forall k :: next < k < n ==> AliasName(k) in reserved
    decreases Obstacles(next, reserved)
  {
    if AliasName(next + 1) in reserved then
      ObstacleCleared(next, reserved);
      NextFree(next + 1, reserved)
    else next + 1
  }
}
