/**
  The two SQL dialects and the positional placeholder renderer
  (`getPlaceholder`, defined twice in the source with identical bodies).
 */
module Dialects {
  import opened Text

  /** A dialect is any string; only these two are rendered. */
  type Dialect = string

  const MySQL: Dialect := "mysql"
  const Postgres: Dialect := "postgres"

  lemma DialectsDiffer()
    ensures MySQL != Postgres
  {
    assert |MySQL| != |Postgres|;
  }

  predicate Known(d: Dialect) {
    d == MySQL || d == Postgres
  }

  /** The placeholder for the argument at 1-based position `i`. */
  function Token(d: Dialect, i: nat): string {
    if d == MySQL then "?" else "$" + Decimal(i)
  }

  predicate ValidRange(start: int, end: int) {
    0 < start <= end
  }

  /** Reference definition: one token per position of the inclusive range, in
      ascending order, or none for an invalid range or an unknown dialect. */
  function Tokens(d: Dialect, start: int, end: int): (ts: seq<string>)
    ensures Known(d) && ValidRange(start, end) ==> |ts| == end - start + 1
    ensures !Known(d) || !ValidRange(start, end) ==> ts == []
  {
    if Known(d) && ValidRange(start, end) then
      seq(end - start + 1, k requires 0 <= k => Token(d, start + k))
    else []
  }

  /** The loop of `getPlaceholder`: positions `i..end` appended to `acc`. */
  function CollectTokens(d: Dialect, i: nat, end: int, acc: seq<string>): seq<string>
    decreases end - i
  {
    if i > end then acc else CollectTokens(d, i + 1, end, acc + [Token(d, i)])
  }

  lemma {:induction false} CollectTokensIsTokens(d: Dialect, start: nat, i: nat, end: int, acc: seq<string>)
    requires Known(d) && 0 < start <= i <= end + 1
    requires acc == seq(i - start, k requires 0 <= k => Token(d, start + k))
    ensures CollectTokens(d, i, end, acc) == Tokens(d, start, end)
    decreases end - i
  {
    if i <= end {
      var acc' := acc + [Token(d, i)];
      assert acc' == seq(i + 1 - start, k requires 0 <= k => Token(d, start + k));
      CollectTokensIsTokens(d, start, i + 1, end, acc');
    } else {
      assert acc == Tokens(d, start, end);
    }
  }

  /** `getPlaceholder(dialect, startIdx, endIdx)`: the range's tokens joined
      by ", " (a lone token when start = end), and "" for a range that is not
      positive and ascending or for a dialect other than mysql and postgres. */
  function Placeholder(d: Dialect, start: int, end: int): (r: string)
    ensures r == Join(Tokens(d, start, end), ", ")
  {
    if start <= 0 || end <= 0 || end < start then ""
    else if d == MySQL then
      if start == end then
        assert Tokens(d, start, end) == [Token(d, start)];
        "?"
      else
        CollectTokensIsTokens(d, start, start, end, []);
        Join(CollectTokens(d, start, end, []), ", ")
    else if d == Postgres then
      if start == end then
        assert Tokens(d, start, end) == [Token(d, start)];
        "$" + Decimal(end)
      else
        CollectTokensIsTokens(d, start, start, end, []);
        Join(CollectTokens(d, start, end, []), ", ")
    else ""
  }

  /** A range that is not positive and ascending renders nothing, whatever
      the dialect. */
  lemma PlaceholderBadRange(d: Dialect, start: int, end: int)
    requires start <= 0 || end <= 0 || end < start
    ensures Placeholder(d, start, end) == ""
  {
  }

  /** Only mysql and postgres render anything. */
  lemma PlaceholderUnknownDialect(d: Dialect, start: int, end: int)
    requires d != MySQL && d != Postgres
    ensures Placeholder(d, start, end) == ""
  {
  }

  /** A single position: "?" in MySQL, "$" and the decimal index in Postgres. */
  lemma PlaceholderSingle(d: Dialect, i: nat)
    requires Known(d) && i > 0
    ensures Placeholder(d, i, i) == Token(d, i)
    ensures d == MySQL ==> Placeholder(d, i, i) == "?"
    ensures d == Postgres ==> Placeholder(d, i, i) == "$" + Decimal(i)
  {
    assert Tokens(d, i, i) == [Token(d, i)];
  }

  /** MySQL output depends only on how many positions the range covers. */
  lemma MySQLCountOnly(a: int, b: int, k: int)
    requires a > 0 && a + k > 0
    ensures Placeholder(MySQL, a, b) == Placeholder(MySQL, a + k, b + k)
  {
    if a <= b {
      forall t | 0 <= t < b - a + 1
        ensures Tokens(MySQL, a, b)[t] == Tokens(MySQL, a + k, b + k)[t]
      {
        assert Tokens(MySQL, a, b)[t] == Token(MySQL, a + t);
        assert Tokens(MySQL, a + k, b + k)[t] == Token(MySQL, a + k + t);
      }
      assert Tokens(MySQL, a, b) == Tokens(MySQL, a + k, b + k);
    }
  }

  /** Postgres tokens are pairwise distinct: each names its own position. */
  lemma PostgresTokensDistinct(start: int, end: int, i: int, j: int)
    requires 0 <= i < j < |Tokens(Postgres, start, end)|
    ensures Tokens(Postgres, start, end)[i] != Tokens(Postgres, start, end)[j]
  {
    var ts := Tokens(Postgres, start, end);
    DialectsDiffer();
    assert Known(Postgres) && ValidRange(start, end);
    assert ts[i] == Token(Postgres, start + i);
    assert ts[j] == Token(Postgres, start + j);
    assert ts[i] == "$" + Decimal(start + i);
    assert ts[j] == "$" + Decimal(start + j);
    if ts[i] == ts[j] {
      assert Decimal(start + i) == ts[i][1..];
      assert Decimal(start + j) == ts[j][1..];
      DecimalInjective(start + i, start + j);
    }
  }

  /** Extending a range by one position appends ", " and that position's
      token; this is how the rendering of a range decomposes into single
      placeholders. */
  lemma PlaceholderSnoc(d: Dialect, start: int, end: int)
    requires Known(d) && 0 < start <= end
    ensures Placeholder(d, start, end + 1)
         == Placeholder(d, start, end) + ", " + Placeholder(d, end + 1, end + 1)
  {
    var ts := Tokens(d, start, end);
    assert Tokens(d, start, end + 1) == ts + [Token(d, end + 1)];
    assert Tokens(d, end + 1, end + 1) == [Token(d, end + 1)];
    JoinSnoc(ts, Token(d, end + 1), ", ");
  }
}
