/**
 * The business keys the load generator makes up: decimal ordinals
 * (strconv.Itoa) for users and groups, and tagged names for the resources
 * of the two permission phases.
 */
module Names {

  predicate IsDigit(c: char) {
    '0' <= c <= '9'
  }

  function Digit(d: nat): (c: char)
    requires d < 10
    ensures IsDigit(c)
  {
    ('0' as int + d) as char
  }

  /** The decimal digits of n, most significant first, without leading zeros. */
  function Decimal(n: nat): (s: string)
    decreases n
  {
    if n < 10 then [Digit(n)] else Decimal(n / 10) + [Digit(n % 10)]
  }

  /** strconv.Itoa */
  function Itoa(n: int): string {
    if n < 0 then "-" + Decimal(-n) else Decimal(n)
  }

  /** userResourceName */
  function UserResourceName(rid: int): string {
    "user-resource-" + Itoa(rid)
  }

  /** groupResourceName */
  function GroupResourceName(rid: int): string {
    "group-resource-" + Itoa(rid)
  }

  /** Decimal writes digits only, and at least two of them from 10 on. */
  lemma {:induction false} DecimalShape(n: nat)
    ensures |Decimal(n)| >= 1
    ensures n >= 10 ==> |Decimal(n)| >= 2
    ensures forall i :: 0 <= i < |Decimal(n)| ==> IsDigit(Decimal(n)[i])
  {
    if n >= 10 {
      DecimalShape(n / 10);
    }
  }

  /** Two numbers with the same decimal digits are equal. */
  lemma {:induction false} DecimalInjective(a: nat, b: nat)
    requires Decimal(a) == Decimal(b)
    ensures a == b
  {
    DecimalShape(a);
    DecimalShape(b);
    if a >= 10 && b >= 10 {
      var sa, sb := Decimal(a), Decimal(b);
      assert sa[..|sa| - 1] == Decimal(a / 10);
      assert sb[..|sb| - 1] == Decimal(b / 10);
      DecimalInjective(a / 10, b / 10);
      assert Digit(a % 10) == sa[|sa| - 1] == sb[|sb| - 1] == Digit(b % 10);
    }
  }

  /** strconv.Itoa never gives two ints the same key. */
  lemma ItoaInjective(a: int, b: int)
    ensures Itoa(a) == Itoa(b) <==> a == b
  {
    if (a < 0) != (b < 0) {
      var n, m := if a < 0 then b else a, if a < 0 then a else b;
      DecimalShape(n);
      assert IsDigit(Itoa(n)[0]) && Itoa(m)[0] == '-';
    } else if Itoa(a) == Itoa(b) {
      if a < 0 {
        assert Decimal(-a) == Itoa(a)[1..] == Itoa(b)[1..] == Decimal(-b);
        DecimalInjective(-a, -b);
      } else {
        DecimalInjective(a, b);
      }
    }
  }

  /** The three characters a `LIKE` pattern gives a meaning: the wildcards `%` and `_`, and the escape `\`. */
  predicate LikeMeta(c: char) {
    c == '%' || c == '_' || c == '\\'
  }

  /** A `LIKE` pattern with no wildcard and no escape in it. */
  predicate LikeLiteral(s: string) {
    forall i :: 0 <= i < |s| ==> !LikeMeta(s[i])
  }

  /**
   * SQL `LIKE` with the default escape `\`: `%` matches any run of
   * characters, `_` any one character, `\` makes the next one literal, and
   * every other character matches itself. (A pattern that ends in a lone
   * `\` is an error in the database; here that `\` matches itself.)
   */
  function Like(pattern: string, s: string): bool
    decreases |pattern| + |s|
  {
    if pattern == [] then s == []
    else if pattern[0] == '%' then Like(pattern[1..], s) || (s != [] && Like(pattern, s[1..]))
    else if pattern[0] == '_' then s != [] && Like(pattern[1..], s[1..])
    else if pattern[0] == '\\' && |pattern| > 1 then s != [] && s[0] == pattern[1] && Like(pattern[2..], s[1..])
    else s != [] && s[0] == pattern[0] && Like(pattern[1..], s[1..])
  }

  /** A literal pattern matches exactly the string it spells. */
  lemma {:induction false} LikeLiteralExact(pattern: string, s: string)
    requires LikeLiteral(pattern)
    ensures Like(pattern, s) <==> s == pattern
    decreases |pattern|
  {
    if pattern != [] && s != [] {
      assert LikeLiteral(pattern[1..]) by {
        forall i | 0 <= i < |pattern[1..]| ensures !LikeMeta(pattern[1..][i]) {
          assert pattern[1..][i] == pattern[i + 1];
        }
      }
      LikeLiteralExact(pattern[1..], s[1..]);
      if s == pattern {
        assert s[1..] == pattern[1..];
      }
      if s[0] == pattern[0] && s[1..] == pattern[1..] {
        assert s == [s[0]] + s[1..] && pattern == [pattern[0]] + pattern[1..];
      }
    }
  }

  /** A key with a wildcard matches other keys too: `1_` matches `10`. */
  lemma LikeWildcardMatchesOthers()
    ensures !LikeLiteral("1_") && Like("1_", "10") && Like("1_", "1_")
  {
    assert LikeMeta("1_"[1]);
    assert "1_"[1..] == "_" && "10"[1..] == "0" && "1_"[1..][1..] == [];
    assert Like("_", "0") && Like("_", "_");
  }

  /** Decimal digits are literal characters of a pattern. */
  lemma DigitsLiteral(s: string)
    requires forall i :: 0 <= i < |s| ==> IsDigit(s[i])
    ensures LikeLiteral(s)
  {
  }

  /** A literal pattern after a literal prefix is literal. */
  lemma ConcatLiteral(a: string, b: string)
    requires LikeLiteral(a) && LikeLiteral(b)
    ensures LikeLiteral(a + b)
  {
    forall i | 0 <= i < |a + b| ensures !LikeMeta((a + b)[i]) {
      if i >= |a| {
        assert (a + b)[i] == b[i - |a|];
      }
    }
  }

  /**
   * The keys the program makes up are literal patterns, so the source's
   * `LIKE $1` lookups on them match exactly the row whose key equals the
   * pattern (LikeLiteralExact).
   */
  lemma NoLikeWildcards(n: int)
    ensures LikeLiteral(Itoa(n))
    ensures LikeLiteral(UserResourceName(n))
    ensures LikeLiteral(GroupResourceName(n))
  {
    DecimalShape(if n < 0 then -n else n);
    DigitsLiteral(Decimal(if n < 0 then -n else n));
    ConcatLiteral("-", Decimal(if n < 0 then -n else n));
    assert Itoa(n) == if n < 0 then "-" + Decimal(-n) else Decimal(n);
    assert LikeLiteral("user-resource-") && LikeLiteral("group-resource-");
    ConcatLiteral("user-resource-", Itoa(n));
    ConcatLiteral("group-resource-", Itoa(n));
  }

  /** Each naming function is injective in its index, and the two never collide. */
  lemma ResourceNamesDistinct(p: int, q: int)
    ensures UserResourceName(p) == UserResourceName(q) <==> p == q
    ensures GroupResourceName(p) == GroupResourceName(q) <==> p == q
    ensures UserResourceName(p) != GroupResourceName(q)
  {
    ItoaInjective(p, q);
    var prefixLength := |"user-resource-"|;
    if UserResourceName(p) == UserResourceName(q) {
      assert Itoa(p) == UserResourceName(p)[prefixLength..] == UserResourceName(q)[prefixLength..] == Itoa(q);
    }
    if GroupResourceName(p) == GroupResourceName(q) {
      var groupPrefixLength := |"group-resource-"|;
      assert Itoa(p) == GroupResourceName(p)[groupPrefixLength..] == GroupResourceName(q)[groupPrefixLength..] == Itoa(q);
    }
    assert UserResourceName(p)[0] != GroupResourceName(q)[0];
  }

  /** The keys strconv.Itoa(lo), ..., strconv.Itoa(hi - 1). */
  function Ordinals(lo: int, hi: int): set<string> {
    set i | lo <= i < hi :: Itoa(i)
  }

  /** Itoa(k) is among the keys of the range exactly when k is. */
  lemma OrdinalsMember(k: int, lo: int, hi: int)
    ensures Itoa(k) in Ordinals(lo, hi) <==> lo <= k < hi
  {
    if Itoa(k) in Ordinals(lo, hi) {
      var i :| lo <= i < hi && Itoa(i) == Itoa(k);
      ItoaInjective(i, k);
    }
  }

  /** The range [lo, hi) gives hi - lo distinct keys. */
  lemma {:induction false} OrdinalsCount(lo: int, hi: int)
    requires lo <= hi
    ensures |Ordinals(lo, hi)| == hi - lo
    decreases hi - lo
  {
    if lo < hi {
      OrdinalsCount(lo, hi - 1);
      OrdinalsMember(hi - 1, lo, hi - 1);
      assert Ordinals(lo, hi) == Ordinals(lo, hi - 1) + {Itoa(hi - 1)};
    } else {
      assert Ordinals(lo, hi) == {};
    }
  }
}
