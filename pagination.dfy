/**
  Paging parameters from a request's query string (utils/pagination.go). The
  query is a map from key to its values in order; `url.Values` never holds a
  key without a value. Go's map iteration order is unspecified, so the loop
  visits the keys in any order.
*/
module Paging {
  import opened Entities
  import opened Decimal

  const MaxInt64: int := 0x7FFF_FFFF_FFFF_FFFF
  const MinInt64: int := -0x8000_0000_0000_0000

  const DefaultLimit: int := 20
  const DefaultPage: int := 1
  const DefaultSort: string := "created_at desc"

  /** Values outside int64 stick at the nearer end, as ParseInt does on a range error. */
  function Clamp(x: int): (r: int)
    ensures MinInt64 <= r <= MaxInt64
    ensures MinInt64 <= x <= MaxInt64 ==> r == x
    ensures x > MaxInt64 ==> r == MaxInt64
    ensures x < MinInt64 ==> r == MinInt64
  {
    if x > MaxInt64 then MaxInt64 else if x < MinInt64 then MinInt64 else x
  }

  /** A leading minus sign. */
  predicate Negative(s: string) { |s| > 0 && s[0] == '-' }

  /** The text after one optional leading sign. */
  function Unsigned(s: string): (u: string)
    ensures |s| > 0 && (s[0] == '+' || s[0] == '-') ==> u == s[1..]
    ensures !(|s| > 0 && (s[0] == '+' || s[0] == '-')) ==> u == s
  {
    if |s| > 0 && (s[0] == '+' || s[0] == '-') then s[1..] else s
  }

  /**
    strconv.ParseInt(s, 10, 64) with its error dropped: the sign, then ParseUint's
    scan of the rest. A syntax error gives 0; a range error or a magnitude from
    2^63 up sticks at the end of int64 on the side of the sign.
  */
  function ParseInt(s: string): (n: int)
    ensures MinInt64 <= n <= MaxInt64
  {
    var neg := Negative(s);
    match ScanUint(Unsigned(s))
    case SyntaxError => 0
    case RangeError => if neg then MinInt64 else MaxInt64
    case Parsed(un) =>
      if !neg && un >= MaxInt64 + 1 then MaxInt64
      else if neg && un > MaxInt64 + 1 then MinInt64
      else if neg then -(un as int)
      else un
  }

  /**
    What ParseInt gives, by the digits in front of the first non-digit: the value of
    a signed numeral clamped to int64; 0 for an empty or bare sign, and when a
    non-digit is met before the digits read so far leave 64 bits; an end of int64
    when the digits in front of the first non-digit already leave 64 bits,
    whatever follows them.
  */
  lemma ParseIntCases(s: string)
    ensures Unsigned(s) == [] ==> ParseInt(s) == 0
    ensures forall i :: 0 <= i <= |Unsigned(s)| && IsDigits(Unsigned(s)[..i]) && Value(Unsigned(s)[..i]) > MaxUint64 ==>
      ParseInt(s) == if Negative(s) then MinInt64 else MaxInt64
    ensures forall i ::
      0 <= i < |Unsigned(s)| && IsDigits(Unsigned(s)[..i]) && !IsDigit(Unsigned(s)[i]) && Value(Unsigned(s)[..i]) <= MaxUint64 ==>
      ParseInt(s) == 0
    ensures Unsigned(s) != [] && IsDigits(Unsigned(s)) && Value(Unsigned(s)) <= MaxUint64 ==>
      ParseInt(s) == Clamp(if Negative(s) then -(Value(Unsigned(s)) as int) else Value(Unsigned(s)))
  {
    ScanUintCases(Unsigned(s));
  }

  /**
    Atoi's path for 1 to 18 bytes: a bare sign or any non-digit gives 0, otherwise
    the digits are accumulated with no overflow check, as none can occur.
  */
  function AtoiFast(s: string): int
  {
    var u := Unsigned(s);
    if u == [] || !IsDigits(u) then 0
    else if Negative(s) then -(Value(u) as int)
    else Value(u)
  }

  lemma Pow10Eighteen()
    ensures Pow10(18) == 1_000_000_000_000_000_000
  {
    assert Pow10(4) == 10_000;
    assert Pow10(8) == 100_000_000;
    assert Pow10(12) == 1_000_000_000_000;
    assert Pow10(16) == 10_000_000_000_000_000;
  }

  /** Eighteen digits denote less than 10^18, so the fast path agrees with ParseInt. */
  lemma {:induction false} AtoiFastAgrees(s: string)
    requires 0 < |s| < 19
    ensures AtoiFast(s) == ParseInt(s)
  {
    ParseIntCases(s);
    var u := Unsigned(s);
    var k := DigitRun(u);
    ValueBound(u[..k]);
    Pow10Monotone(k, 18);
    Pow10Eighteen();
    if k == |u| {
      assert u[..k] == u;
    } else {
      assert !IsDigits(u) by {
        assert !IsDigit(u[k]);
      }
    }
  }

  /**
    strconv.Atoi with its error dropped. Strings of 1 to 18 bytes take the fast
    path, all others ParseInt; both give ParseInt's value.
  */
  function Atoi(s: string): (n: int)
    ensures MinInt64 <= n <= MaxInt64
    ensures n == ParseInt(s)
  {
    if 0 < |s| < 19 then
      AtoiFastAgrees(s);
      AtoiFast(s)
    else
      ParseInt(s)
  }

  /** `%d` of an int64: a minus sign for negatives, then the canonical digits. */
  function Itoa(x: int): (s: string)
  {
    if x < 0 then "-" + Render(-x) else Render(x)
  }

  /** Atoi reads back what Itoa writes, for every int64. */
  lemma AtoiItoa(x: int)
    requires MinInt64 <= x <= MaxInt64
    ensures Atoi(Itoa(x)) == x
  {
    ParseIntCases(Itoa(x));
    if x < 0 {
      assert Unsigned(Itoa(x)) == Render(-x);
    } else {
      assert IsDigit(Render(x)[0]);
    }
  }

  /** A numeral denoting more than int64 holds reads as the largest int64. */
  lemma AtoiSaturates(s: string)
    requires |s| > 0 && IsDigits(s) && Value(s) > MaxInt64
    ensures Atoi(s) == MaxInt64
    ensures Atoi("-" + s) == MinInt64
  {
    ParseIntCases(s);
    ParseIntCases("-" + s);
    assert Unsigned("-" + s) == s;
    assert IsDigit(s[0]);
    assert s[..|s|] == s;
  }

  /**
    Digits beyond 64 bits decide the result before anything after them is read:
    "99999999999999999999x" reads as the largest int64, and with a minus sign as
    the smallest, although it is no numeral.
  */
  lemma {:induction false} OverflowBeforeJunk(digits: string, rest: string)
    requires IsDigits(digits) && Value(digits) > MaxUint64
    ensures Atoi(digits + rest) == MaxInt64
    ensures Atoi("-" + digits + rest) == MinInt64
  {
    ParseIntCases(digits + rest);
    ParseIntCases("-" + digits + rest);
    var s := digits + rest;
    assert s[..|digits|] == digits;
    assert IsDigit(s[0]) by {
      assert s[0] == digits[0];
    }
    assert Unsigned("-" + digits + rest) == s;
  }

  /** The last of a key's values. */
  function Last(values: seq<string>): string
    requires |values| > 0
  {
    values[|values| - 1]
  }

  predicate WellFormed(query: map<string, seq<string>>)
  {
    forall k :: k in query ==> |query[k]| > 0
  }

  /** What GeneratePaginationFromRequest returns for a query. */
  function PaginationFor(query: map<string, seq<string>>): (p: Pagination)
    requires WellFormed(query)
  {
    Pagination(
      if "limit" in query then Atoi(Last(query["limit"])) else DefaultLimit,
      if "page" in query then Atoi(Last(query["page"])) else DefaultPage,
      if "sort" in query then Last(query["sort"]) else DefaultSort)
  }

  /** The loop of the source: every key once, in whatever order the map yields them. */
  method GeneratePaginationFromRequest(query: map<string, seq<string>>) returns (p: Pagination)
    requires WellFormed(query)
    ensures p == PaginationFor(query)
  {
    var limit := DefaultLimit;
    var page := DefaultPage;
    var sort := DefaultSort;
    var remaining := query.Keys;
    while remaining != {}
      invariant remaining <= query.Keys
      invariant limit == if "limit" in query && "limit" !in remaining then Atoi(Last(query["limit"])) else DefaultLimit
      invariant page == if "page" in query && "page" !in remaining then Atoi(Last(query["page"])) else DefaultPage
      invariant sort == if "sort" in query && "sort" !in remaining then Last(query["sort"]) else DefaultSort
      decreases |remaining|
    {
      var key :| key in remaining;
      var value := query[key];
      var queryValue := value[|value| - 1];
      if key == "limit" {
        limit := Atoi(queryValue);
      } else if key == "page" {
        page := Atoi(queryValue);
      } else if key == "sort" {
        sort := queryValue;
      }
      remaining := remaining - {key};
    }
    p := Pagination(limit, page, sort);
  }

  /** An empty query gives 20 per page, the first page, newest first. */
  lemma Defaults()
    ensures PaginationFor(map[]) == Pagination(20, 1, "created_at desc")
  {
  }

  /** Keys other than limit, page and sort change nothing. */
  lemma OtherKeysIgnored(query: map<string, seq<string>>, key: string, values: seq<string>)
    requires WellFormed(query) && |values| > 0
    requires key != "limit" && key != "page" && key != "sort"
    ensures WellFormed(query[key := values])
    ensures PaginationFor(query[key := values]) == PaginationFor(query)
  {
  }

  /** A repeated key counts only with its last value; sort is taken verbatim. */
  lemma LastValueWins(query: map<string, seq<string>>, earlier: seq<string>, limit: string, page: string, sort: string)
    requires WellFormed(query)
    ensures WellFormed(query["limit" := earlier + [limit]]["page" := earlier + [page]]["sort" := earlier + [sort]])
    ensures PaginationFor(query["limit" := earlier + [limit]]["page" := earlier + [page]]["sort" := earlier + [sort]])
         == Pagination(Atoi(limit), Atoi(page), sort)
  {
  }

  /** Nothing checks the range: zero and negative numbers pass through, garbage becomes 0. */
  lemma NoRangeCheck(query: map<string, seq<string>>, n: int)
    requires WellFormed(query) && MinInt64 <= n <= 0
    ensures PaginationFor(query["limit" := [Itoa(n)]]).limit == n
    ensures PaginationFor(query["page" := ["abc"]]).page == 0
  {
    AtoiItoa(n);
    ParseIntCases("abc");
    assert "abc"[..0] == [] && !IsDigit("abc"[0]);
  }
}
