/**
 * The two string helpers of the logo carousel (src/components/ui/LogoLoop.tsx,
 * lines 54-58): `cx`, which builds a class attribute from optional parts,
 * and `toCssLength`, which turns a width prop into a CSS length.
 */
module LogoLoopText {
  import opened Optional

  // ---------------------------------------------------------------- cx

  /**
   * A `cx` argument: a class string, or `false`/`null`/`undefined` (None).
   * JavaScript's `Boolean` also rejects the empty string.
   */
  predicate Truthy(part: Option<string>) { part.Some? && part.value != "" }

  /** `parts.filter(Boolean)`: the truthy strings, in their original order. */
  function KeptParts(parts: seq<Option<string>>): (kept: seq<string>)
    ensures |kept| <= |parts|
    ensures forall w :: w in kept ==> w != ""
    ensures forall i :: 0 <= i < |parts| && Truthy(parts[i]) ==> parts[i].value in kept
    ensures forall w :: w in kept ==> Some(w) in parts
  {
    if parts == [] then []
    else if Truthy(parts[0]) then [parts[0].value] + KeptParts(parts[1..])
    else KeptParts(parts[1..])
  }

  /**
   * `filter(Boolean)` is a filter: it distributes over concatenation and
   * keeps a single part exactly when that part is truthy. Together these fix
   * the kept parts, their order and their multiplicity.
   */
  lemma {:induction false} KeptPartsAppend(a: seq<Option<string>>, b: seq<Option<string>>)
    ensures KeptParts(a + b) == KeptParts(a) + KeptParts(b)
  {
    if a != [] {
      assert (a + b)[0] == a[0];
      assert (a + b)[1..] == a[1..] + b;
      KeptPartsAppend(a[1..], b);
    } else {
      assert a + b == b;
    }
  }

  lemma KeptPartsSingle(part: Option<string>)
    ensures KeptParts([part]) == (if Truthy(part) then [part.value] else [])
  {
    assert [part][1..] == [];
  }

  /** `words.join(" ")`. */
  function JoinWithSpaces(words: seq<string>): (joined: string)
    ensures |words| == 1 ==> joined == words[0]
  {
    if words == [] then ""
    else if |words| == 1 then words[0]
    else words[0] + " " + JoinWithSpaces(words[1..])
  }

  /** `cx(...parts)` (lines 57-58). */
  function Cx(parts: seq<Option<string>>): (cls: string)
    ensures cls == "" <==> forall i :: 0 <= i < |parts| ==> !Truthy(parts[i])
  {
    EmptyJoin(KeptParts(parts));
    KeptEmpty(parts);
    JoinWithSpaces(KeptParts(parts))
  }

  /** Joining two non-empty lists puts one space between their joins. */
  lemma {:induction false} JoinAppend(a: seq<string>, b: seq<string>)
    requires a != [] && b != []
    ensures JoinWithSpaces(a + b) == JoinWithSpaces(a) + " " + JoinWithSpaces(b)
  {
    assert (a + b)[0] == a[0];
    assert (a + b)[1..] == a[1..] + b;
    if |a| > 1 {
      JoinAppend(a[1..], b);
    }
  }

  /**
   * `cx` over two argument lists: the two class strings joined by a space,
   * or whichever one is non-empty. With `CxSingle` this gives `cx`'s result
   * for any arguments, multi-class strings included.
   */
  lemma CxAppend(ps: seq<Option<string>>, qs: seq<Option<string>>)
    ensures Cx(ps + qs) ==
      if Cx(ps) == "" then Cx(qs)
      else if Cx(qs) == "" then Cx(ps)
      else Cx(ps) + " " + Cx(qs)
  {
    KeptPartsAppend(ps, qs);
    var a, b := KeptParts(ps), KeptParts(qs);
    EmptyJoin(a);
    EmptyJoin(b);
    if a == [] {
      assert a + b == b;
    } else if b == [] {
      assert a + b == a;
    } else {
      JoinAppend(a, b);
    }
  }

  /** A single argument: a truthy string is the class string, anything else gives "". */
  lemma CxSingle(part: Option<string>)
    ensures Cx([part]) == (if Truthy(part) then part.value else "")
  {
    KeptPartsSingle(part);
  }

  lemma EmptyJoin(words: seq<string>)
    requires forall w :: w in words ==> w != ""
    ensures JoinWithSpaces(words) == "" <==> words == []
  {
    if |words| > 1 {
      assert words[0] in words;
    } else if |words| == 1 {
      assert words[0] in words;
    }
  }

  lemma {:induction false} KeptEmpty(parts: seq<Option<string>>)
    ensures KeptParts(parts) == [] <==> forall i :: 0 <= i < |parts| ==> !Truthy(parts[i])
  {
    if parts != [] {
      KeptEmpty(parts[1..]);
      if !Truthy(parts[0]) {
        forall i | 0 <= i < |parts| && 0 < i ensures parts[i] == parts[1..][i - 1] {}
      }
    }
  }

  /**
   * JavaScript's `s.split(" ")`: the pieces between single spaces, empty
   * pieces included.
   */
  function SplitOnSpaces(s: string): (pieces: seq<string>)
    ensures |pieces| >= 1
  {
    if s == [] then [""]
    else if s[0] == ' ' then [""] + SplitOnSpaces(s[1..])
    else
      var rest := SplitOnSpaces(s[1..]);
      [[s[0]] + rest[0]] + rest[1..]
  }

  predicate IsClassName(w: string) { w != "" && ' ' !in w }

  lemma {:induction false} SplitWord(w: string)
    requires ' ' !in w
    ensures SplitOnSpaces(w) == [w]
  {
    if w != [] {
      SplitWord(w[1..]);
      assert [w[0]] + w[1..] == w;
    }
  }

  lemma {:induction false} SplitWordThenSpace(w: string, rest: string)
    requires ' ' !in w
    ensures SplitOnSpaces(w + " " + rest) == [w] + SplitOnSpaces(rest)
  {
    if w == [] {
      assert w + " " + rest == [' '] + rest;
    } else {
      var s := w + " " + rest;
      assert s[0] == w[0] && s[1..] == w[1..] + " " + rest;
      SplitWordThenSpace(w[1..], rest);
      assert [w[0]] + w[1..] == w;
    }
  }

  /** Splitting at a space splits the two sides independently. */
  lemma {:induction false} SplitAtSpace(a: string, b: string)
    ensures SplitOnSpaces(a + " " + b) == SplitOnSpaces(a) + SplitOnSpaces(b)
  {
    var s := a + " " + b;
    if a == [] {
      assert s == [' '] + b;
    } else {
      assert s[0] == a[0] && s[1..] == a[1..] + " " + b;
      SplitAtSpace(a[1..], b);
    }
  }

  /** The pieces of each word in turn: what splitting their join yields. */
  function SplitEach(words: seq<string>): (pieces: seq<string>)
    ensures |pieces| >= |words|
  {
    if words == [] then [] else SplitOnSpaces(words[0]) + SplitEach(words[1..])
  }

  lemma {:induction false} SplitJoin(words: seq<string>)
    requires words != []
    ensures SplitOnSpaces(JoinWithSpaces(words)) == SplitEach(words)
  {
    if |words| == 1 {
      assert SplitEach(words) == SplitOnSpaces(words[0]) + SplitEach([]);
    } else {
      SplitJoin(words[1..]);
      SplitAtSpace(words[0], JoinWithSpaces(words[1..]));
    }
  }

  /**
   * The space-separated pieces of `cx`'s result are those of its truthy parts,
   * in order: each part, multi-class strings included, is split in place.
   */
  lemma CxClassNames(parts: seq<Option<string>>)
    requires exists i :: 0 <= i < |parts| && Truthy(parts[i])
    ensures SplitOnSpaces(Cx(parts)) == SplitEach(KeptParts(parts))
  {
    KeptEmpty(parts);
    SplitJoin(KeptParts(parts));
  }

  /**
   * When no word holds a space, the join splits back into exactly the words.
   */
  lemma {:induction false} JoinSplitRoundTrip(words: seq<string>)
    requires |words| >= 1
    requires forall w :: w in words ==> IsClassName(w)
    ensures SplitOnSpaces(JoinWithSpaces(words)) == words
  {
    assert words[0] in words;
    if |words| == 1 {
      SplitWord(words[0]);
    } else {
      assert forall w :: w in words[1..] ==> w in words;
      JoinSplitRoundTrip(words[1..]);
      SplitWordThenSpace(words[0], JoinWithSpaces(words[1..]));
    }
  }

  // ------------------------------------------------------- toCssLength

  /** A width prop: a number of pixels or a CSS string. */
  datatype CssLength = Pixels(n: int) | Text(s: string)

  function DigitChar(d: int): (c: char)
    requires 0 <= d < 10
    ensures '0' <= c <= '9'
  {
    "0123456789"[d]
  }

  /** The decimal digits of n, as JavaScript prints a whole number. */
  function NatToDecimal(n: nat): (digits: string)
    ensures |digits| >= 1
    ensures forall i :: 0 <= i < |digits| ==> '0' <= digits[i] <= '9'
    ensures digits[0] == '0' ==> n == 0
  {
    if n < 10 then [DigitChar(n)] else NatToDecimal(n / 10) + [DigitChar(n % 10)]
  }

  /** A whole number in decimal: an optional minus sign, then digits. */
  predicate IsDecimal(text: string)
  {
    && |text| >= 1
    && (text[0] == '-' ==> |text| >= 2)
    && forall i :: (if text[0] == '-' then 1 else 0) <= i < |text| ==> '0' <= text[i] <= '9'
  }

  function IntToDecimal(n: int): (text: string)
    ensures IsDecimal(text)
  {
    if n < 0 then "-" + NatToDecimal(-n) else NatToDecimal(n)
  }

  /** The value of a string of decimal digits. */
  function DigitsValue(digits: string): (value: nat)
    requires forall i :: 0 <= i < |digits| ==> '0' <= digits[i] <= '9'
  {
    if digits == [] then 0
    else DigitsValue(digits[..|digits| - 1]) * 10 + (digits[|digits| - 1] - '0') as int
  }

  /** Reads back a decimal as IntToDecimal writes it. */
  function ParseDecimal(text: string): (n: int)
    requires IsDecimal(text)
  {
    if text[0] == '-' then -(DigitsValue(text[1..]) as int) else DigitsValue(text)
  }

  /** css is n pixels: a decimal that reads back as n, then "px". */
  predicate IsPixelLength(css: string, n: int)
  {
    && |css| >= 3
    && css[|css| - 2..] == "px"
    && IsDecimal(css[..|css| - 2])
    && ParseDecimal(css[..|css| - 2]) == n
  }

  lemma {:induction false} NatToDecimalValue(n: nat)
    ensures DigitsValue(NatToDecimal(n)) == n
  {
    if n >= 10 {
      NatToDecimalValue(n / 10);
      var d := NatToDecimal(n);
      assert d[..|d| - 1] == NatToDecimal(n / 10);
    }
  }

  /** Printing a whole number and reading it back gives the number. */
  lemma DecimalRoundTrip(n: int)
    ensures ParseDecimal(IntToDecimal(n)) == n
  {
    var text := IntToDecimal(n);
    if n < 0 {
      var digits := NatToDecimal(-n);
      NatToDecimalValue(-n);
      assert text == "-" + digits;
      assert text[0] == '-' && text[1..] == digits;
      assert ParseDecimal(text) == -(DigitsValue(digits) as int);
    } else {
      var digits := NatToDecimal(n);
      NatToDecimalValue(n);
      assert text == digits && '0' <= text[0] <= '9';
      assert ParseDecimal(text) == DigitsValue(digits);
    }
  }

  /**
   * `toCssLength` (lines 54-55): a number becomes that many pixels, a
   * string passes through, and an absent value stays absent.
   */
  function ToCssLength(value: Option<CssLength>): (css: Option<string>)
    ensures value.None? <==> css.None?
    ensures value.Some? && value.value.Text? ==> css == Some(value.value.s)
    ensures value.Some? && value.value.Pixels? ==>
      css.Some? && IsPixelLength(css.value, value.value.n)
  {
    match value
    case None => None
    case Some(Text(s)) => Some(s)
    case Some(Pixels(n)) =>
      var text := IntToDecimal(n);
      DecimalRoundTrip(n);
      assert (text + "px")[..|text|] == text;
      Some(text + "px")
  }
}
