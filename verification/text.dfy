/** The text the Go containers' `Print` methods build: `fmt.Sprintf("%d")`
    of each element, joined by a separator and put in brackets. */
module Text {
  /** The decimal digit for `d`. */
  function Digit(d: nat): (c: char)
    requires d < 10
    ensures '0' <= c <= '9' && c as int - '0' as int == d
  {
    ['0', '1', '2', '3', '4', '5', '6', '7', '8', '9'][d]
  }

  /** The decimal digits of `n`, most significant first, without leading
      zeros. */
  function Natural(n: nat): (r: string)
    ensures |r| >= 1 && (|r| > 1 ==> r[0] != '0')
    ensures forall i | 0 <= i < |r| :: '0' <= r[i] <= '9'
    decreases n
  {
    if n < 10 then [Digit(n)] else Natural(n / 10) + [Digit(n % 10)]
  }

  /** `%d`: a minus sign for negative numbers, then the digits. */
  function Decimal(n: int): (r: string)
    ensures |r| >= 1
    ensures r[0] == '-' <==> n < 0
  {
    if n < 0 then "-" + Natural(-n) else Natural(n)
  }

  /** The value of a string of decimal digits. */
  function DigitsValue(s: string): (n: nat)
    requires forall i | 0 <= i < |s| :: '0' <= s[i] <= '9'
    decreases |s|
  {
    if s == [] then 0
    else 10 * DigitsValue(s[..|s| - 1]) + (s[|s| - 1] as int - '0' as int)
  }

  /** Reading the digits back gives the number. */
  lemma {:induction false} NaturalValue(n: nat)
    ensures DigitsValue(Natural(n)) == n
    decreases n
  {
    if n >= 10 {
      var r := Natural(n);
      assert r[..|r| - 1] == Natural(n / 10);
      NaturalValue(n / 10);
    }
  }

  /** The number `%d` printed, read back. */
  function ParseDecimal(s: string): (n: int)
    requires |s| >= 1
    requires forall i | 1 <= i < |s| :: '0' <= s[i] <= '9'
    requires s[0] == '-' || '0' <= s[0] <= '9'
  {
    if s[0] == '-' then -(DigitsValue(s[1..]) as int) else DigitsValue(s)
  }

  /** `%d` loses nothing: its text determines the number. */
  lemma DecimalRoundTrip(n: int)
    ensures ParseDecimal(Decimal(n)) == n
  {
    var d := Natural(if n < 0 then -n else n);
    NaturalValue(if n < 0 then -n else n);
    if n < 0 {
      var r := "-" + d;
      assert r[1..] == d;
      assert Decimal(n) == r;
    }
  }

  /** The parts with `sep` between consecutive ones. */
  function Join(parts: seq<string>, sep: string): (r: string)
    ensures parts == [] ==> r == ""
    ensures |parts| == 1 ==> r == parts[0]
  {
    if parts == [] then ""
    else if |parts| == 1 then parts[0]
    else parts[0] + sep + Join(parts[1..], sep)
  }

  /** The Go `Print` loop: `"[]"` for no elements, otherwise `"["`, the
      elements in `%d` separated by `sep`, and `"]"`. */
  function Bracketed(xs: seq<int>, sep: string): (r: string)
    ensures |r| >= 2 && r[0] == '[' && r[|r| - 1] == ']'
  {
    if xs == [] then "[]"
    else "[" + Join(Parts(xs), sep) + "]"
  }

  /** The `%d` text of every element. */
  function Parts(xs: seq<int>): (ps: seq<string>)
    ensures |ps| == |xs|
    ensures forall i | 0 <= i < |xs| :: ps[i] == Decimal(xs[i])
  {
    seq(|xs|, i requires 0 <= i < |xs| => Decimal(xs[i]))
  }

  /** Joining one more part adds the separator and the part at the end. */
  lemma {:induction false} JoinSnoc(parts: seq<string>, p: string, sep: string)
    ensures Join(parts + [p], sep) == if parts == [] then p else Join(parts, sep) + sep + p
    decreases |parts|
  {
    if |parts| == 1 {
      assert (parts + [p])[1..] == [p];
    } else if |parts| >= 2 {
      assert (parts + [p])[1..] == parts[1..] + [p];
      JoinSnoc(parts[1..], p, sep);
    }
  }

  /** The loop every Go `Print` runs: `"[]"` for no elements, otherwise
      `"["`, then for each element the separator (except before the first)
      and its `%d` text, then `"]"`.  It builds exactly `Bracketed`. */
  method Render(xs: seq<int>, sep: string) returns (r: string)
    ensures r == Bracketed(xs, sep)
  {
    if xs == [] {
      return "[]";
    }
    ghost var parts := Parts(xs);
    var body := "";
    var i := 0;
    while i < |xs|
      invariant 0 <= i <= |xs|
      invariant body == Join(parts[..i], sep)
    {
      if i > 0 {
        body := body + sep;
      }
      body := body + Decimal(xs[i]);
      JoinPrefix(parts, i, sep);
      i := i + 1;
    }
    assert parts[..|xs|] == parts;
    r := "[" + body + "]";
  }

  /** One more part of the prefix joined. */
  lemma JoinPrefix(parts: seq<string>, i: nat, sep: string)
    requires i < |parts|
    ensures Join(parts[..i + 1], sep) == if i == 0 then parts[i] else Join(parts[..i], sep) + sep + parts[i]
  {
    assert parts[..i + 1] == parts[..i] + [parts[i]];
    JoinSnoc(parts[..i], parts[i], sep);
  }

  /** Only an empty container prints as `"[]"`, since every number prints
      as at least one character; a single element prints as itself. */
  lemma BracketedEmpty(xs: seq<int>, sep: string)
    ensures Bracketed(xs, sep) == "[]" <==> xs == []
    ensures |xs| == 1 ==> Bracketed(xs, sep) == "[" + Decimal(xs[0]) + "]"
  {
    if xs != [] {
      var parts := Parts(xs);
      assert |Join(parts, sep)| >= |parts[0]| >= 1;
      assert |Bracketed(xs, sep)| > 2;
    }
  }
}
