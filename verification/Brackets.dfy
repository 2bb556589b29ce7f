/** `validate_closed`: three saturating depth counters over the token stream. */
module Brackets {

  datatype Kind = Bracket | Brace | Paren

  datatype Token = Open(kind: Kind) | Close(kind: Kind) | Other

  datatype Validation = Valid | Incomplete

  /** Openers minus closers of one kind. */
  function Excess(tokens: seq<Token>, kind: Kind): int {
    multiset(tokens)[Open(kind)] as int - multiset(tokens)[Close(kind)] as int
  }

  function Delta(t: Token, kind: Kind): int {
    if t == Open(kind) then 1 else if t == Close(kind) then -1 else 0
  }

  /** d is the largest excess of any suffix; the empty suffix counts 0. */
  ghost predicate LargestSuffixExcess(tokens: seq<Token>, kind: Kind, d: int) {
    && (forall i :: 0 <= i <= |tokens| ==> Excess(tokens[i..], kind) <= d)
    && (exists i :: 0 <= i <= |tokens| && Excess(tokens[i..], kind) == d)
  }

  /** No suffix has more openers than closers of the kind. */
  ghost predicate NeverOpen(tokens: seq<Token>, kind: Kind) {
    forall i :: 0 <= i <= |tokens| ==>
      multiset(tokens[i..])[Open(kind)] <= multiset(tokens[i..])[Close(kind)]
  }

  function Saturated(d: nat, delta: int): nat {
    if d + delta < 0 then 0 else d + delta
  }

  lemma SuffixStart(kind: Kind)
    ensures LargestSuffixExcess([], kind, 0)
  {
    var none: seq<Token> := [];
    assert Excess(none[0..], kind) == 0;
  }

  lemma ExcessStep(tokens: seq<Token>, n: nat, i: nat, kind: Kind)
    requires i <= n < |tokens|
    ensures Excess(tokens[..n + 1][i..], kind) == Excess(tokens[..n][i..], kind) + Delta(tokens[n], kind)
  {
    assert tokens[..n + 1][i..] == tokens[..n][i..] + [tokens[n]];
  }

  /** Saturating at zero is what forgetting an unprofitable suffix amounts to. */
  lemma SuffixStep(tokens: seq<Token>, n: nat, kind: Kind, d: nat)
    requires n < |tokens| && LargestSuffixExcess(tokens[..n], kind, d)
    ensures LargestSuffixExcess(tokens[..n + 1], kind, Saturated(d, Delta(tokens[n], kind)))
  {
    var was, now, e := tokens[..n], tokens[..n + 1], Delta(tokens[n], kind);
    var r := Saturated(d, e);
    assert now[n + 1..] == [];
    forall i | 0 <= i <= |now|
      ensures Excess(now[i..], kind) <= r
    {
      if i <= n {
        ExcessStep(tokens, n, i, kind);
        assert Excess(was[i..], kind) <= d;
      }
    }
    if d + e < 0 {
      assert Excess(now[n + 1..], kind) == r;
    } else {
      var i :| 0 <= i <= |was| && Excess(was[i..], kind) == d;
      ExcessStep(tokens, n, i, kind);
      assert Excess(now[i..], kind) == r;
    }
  }

  /** Valid exactly when no suffix has more openers than closers of any kind. */
  method ValidateClosed(tokens: seq<Token>) returns (r: Validation)
    ensures r == Valid <==>
              NeverOpen(tokens, Bracket) && NeverOpen(tokens, Brace) && NeverOpen(tokens, Paren)
  {
    hide Excess, LargestSuffixExcess, NeverOpen;
    var bracketDepth: nat, braceDepth: nat, parenDepth: nat := 0, 0, 0;
    SuffixStart(Bracket);
    SuffixStart(Brace);
    SuffixStart(Paren);
    assert tokens[..0] == [];
    for n := 0 to |tokens|
      invariant LargestSuffixExcess(tokens[..n], Bracket, bracketDepth)
      invariant LargestSuffixExcess(tokens[..n], Brace, braceDepth)
      invariant LargestSuffixExcess(tokens[..n], Paren, parenDepth)
    {
      SuffixStep(tokens, n, Bracket, bracketDepth);
      SuffixStep(tokens, n, Brace, braceDepth);
      SuffixStep(tokens, n, Paren, parenDepth);
      match tokens[n]
      case Open(Bracket) => bracketDepth := bracketDepth + 1;
      case Open(Brace) => braceDepth := braceDepth + 1;
      case Open(Paren) => parenDepth := parenDepth + 1;
      case Close(Bracket) => bracketDepth := if bracketDepth == 0 then 0 else bracketDepth - 1;
      case Close(Brace) => braceDepth := if braceDepth == 0 then 0 else braceDepth - 1;
      case Close(Paren) => parenDepth := if parenDepth == 0 then 0 else parenDepth - 1;
      case Other =>
    }
    assert tokens[..|tokens|] == tokens;
    r := if bracketDepth == 0 && braceDepth == 0 && parenDepth == 0 then Valid else Incomplete;
    NoneOpen(tokens, Bracket, bracketDepth);
    NoneOpen(tokens, Brace, braceDepth);
    NoneOpen(tokens, Paren, parenDepth);
  }

  lemma NoneOpen(tokens: seq<Token>, kind: Kind, d: nat)
    requires LargestSuffixExcess(tokens, kind, d)
    ensures d == 0 <==> NeverOpen(tokens, kind)
  {
  }
}
