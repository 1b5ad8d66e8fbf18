/** The parts of Java's `String` and `Integer` behaviour that the adapters rely on. A Java
    `String` is a `string` here: a sequence of Unicode code points rather than of UTF-16
    units. Trimming, lower-casing and splitting only ever test ASCII characters, which are
    single units in both views, so the two give the same results. */
module JavaText {
  import opened Wrappers

  /** The values of Java's `int`, and so of a non-null `Integer`. */
  type Int32 = x: int | -0x8000_0000 <= x <= 0x7fff_ffff

  /** `StringUtils.isEmpty`: null, or of length zero. */
  predicate IsEmpty(s: Option<string>) {
    s.None? || s.value == []
  }

  // ---------------------------------------------------------------------------
  // String.trim
  // ---------------------------------------------------------------------------

  /** `String.trim()` treats every char up to U+0020 as blank. */
  predicate IsBlank(c: char) {
    c <= ' '
  }

  /** Drops the leading blanks. */
  function TrimStart(s: string): (r: string)
    ensures |r| <= |s| && r == s[|s| - |r|..]
    ensures r == [] || !IsBlank(r[0])
    ensures forall i :: 0 <= i < |s| - |r| ==> IsBlank(s[i])
  {
    if |s| > 0 && IsBlank(s[0]) then TrimStart(s[1..]) else s
  }

  /** Drops the trailing blanks. */
  function TrimEnd(s: string): (r: string)
    ensures |r| <= |s| && r == s[..|r|]
    ensures r == [] || !IsBlank(r[|r| - 1])
    ensures forall i :: |r| <= i < |s| ==> IsBlank(s[i])
  {
    if |s| > 0 && IsBlank(s[|s| - 1]) then TrimEnd(s[..|s| - 1]) else s
  }

  /** `String.trim()`: the string without its leading and trailing blanks. */
  function Trim(s: string): (r: string)
    ensures |r| <= |s|
    ensures r == [] || (!IsBlank(r[0]) && !IsBlank(r[|r| - 1]))
    ensures exists a :: IsBlankPadded(s, r, a)
  {
    TrimWindow(s);
    TrimEnd(TrimStart(s))
  }

  /** `s` is `r` at offset `a`, with only blanks before and after it. */
  predicate IsBlankPadded(s: string, r: string, a: int)
  {
    0 <= a && a + |r| <= |s| && r == s[a..a + |r|]
    && (forall i :: 0 <= i < a ==> IsBlank(s[i]))
    && (forall i :: a + |r| <= i < |s| ==> IsBlank(s[i]))
  }

  /** `TrimEnd(TrimStart(s))` is a window of `s` with only blanks on either side. */
  lemma TrimWindow(s: string)
    ensures IsBlankPadded(s, TrimEnd(TrimStart(s)), |s| - |TrimStart(s)|)
  {
    var t := TrimStart(s);
    PaddedWindow(s, t, TrimEnd(t), |s| - |t|);
  }

  /** A blank-ended prefix `r` of a blank-started suffix `t` of `s` is padded by blanks in `s`. */
  lemma PaddedWindow(s: string, t: string, r: string, a: int)
    requires 0 <= a <= |s| && t == s[a..] && |r| <= |t| && r == t[..|r|]
    requires forall i :: 0 <= i < a ==> IsBlank(s[i])
    requires forall i :: |r| <= i < |t| ==> IsBlank(t[i])
    ensures IsBlankPadded(s, r, a)
  {
    forall i | a + |r| <= i < |s|
      ensures IsBlank(s[i])
    {
      assert s[i] == t[i - a];
    }
  }

  /** A string that neither starts nor ends with a blank is its own trim. */
  lemma TrimUnpadded(s: string)
    requires s == [] || (!IsBlank(s[0]) && !IsBlank(s[|s| - 1]))
    ensures Trim(s) == s
  {
  }

  /** Trailing blanks after a part that ends with a non-blank are the only ones trimmed. */
  lemma {:induction false} TrimEndAfter(a: string, b: string)
    requires a != [] && !IsBlank(a[|a| - 1])
    ensures TrimEnd(a + b) == a + TrimEnd(b)
    decreases |b|
  {
    if b == [] {
      assert a + b == a;
    } else if IsBlank(b[|b| - 1]) {
      assert (a + b)[..|a + b| - 1] == a + b[..|b| - 1];
      TrimEndAfter(a, b[..|b| - 1]);
    }
  }

  /** Trimming a part without blank ends followed by more text trims only that text's end. */
  lemma TrimAfterUnpadded(a: string, b: string)
    requires a != [] && !IsBlank(a[0]) && !IsBlank(a[|a| - 1])
    ensures Trim(a + b) == a + TrimEnd(b)
  {
    assert (a + b)[0] == a[0];
    assert TrimStart(a + b) == a + b;
    TrimEndAfter(a, b);
  }

  /** Trimming twice is trimming once. */
  lemma TrimIdempotent(s: string)
    ensures Trim(Trim(s)) == Trim(s)
  {
    TrimUnpadded(Trim(s));
  }

  /** `StringUtils.trimToNull`: the trimmed string, or null when that is empty. */
  function TrimToNull(s: Option<string>): (r: Option<string>)
    ensures r.Some? ==> s.Some? && r.value == Trim(s.value) && r.value != []
    ensures r.None? ==> s.None? || Trim(s.value) == []
  {
    match s
    case None => None
    case Some(text) => var t := Trim(text); if t == [] then None else Some(t)
  }

  // ---------------------------------------------------------------------------
  // String.toLowerCase
  // ---------------------------------------------------------------------------

  function LowerChar(c: char): char {
    if 'A' <= c <= 'Z' then (c as int + 32) as char else c
  }

  /** `String.toLowerCase()` on the ASCII letters; every other char is kept. */
  function ToLowerCase(s: string): (r: string)
    ensures |r| == |s|
    ensures forall i :: 0 <= i < |s| ==> r[i] == LowerChar(s[i])
  {
    seq(|s|, i requires 0 <= i < |s| => LowerChar(s[i]))
  }

  lemma ToLowerCaseAppend(a: string, b: string)
    ensures ToLowerCase(a + b) == ToLowerCase(a) + ToLowerCase(b)
  {
    assert forall i :: 0 <= i < |a + b| ==> ToLowerCase(a + b)[i] == (ToLowerCase(a) + ToLowerCase(b))[i];
  }

  /** Lower-casing keeps blanks and non-blanks. */
  lemma {:induction false} TrimStartLower(s: string)
    ensures TrimStart(ToLowerCase(s)) == ToLowerCase(TrimStart(s))
  {
    if |s| > 0 && IsBlank(s[0]) {
      TrimStartLower(s[1..]);
      assert ToLowerCase(s)[1..] == ToLowerCase(s[1..]);
    }
  }

  lemma {:induction false} TrimEndLower(s: string)
    ensures TrimEnd(ToLowerCase(s)) == ToLowerCase(TrimEnd(s))
  {
    if |s| > 0 && IsBlank(s[|s| - 1]) {
      TrimEndLower(s[..|s| - 1]);
      assert ToLowerCase(s)[..|s| - 1] == ToLowerCase(s[..|s| - 1]);
    }
  }

  /** Trimming and lower-casing commute. */
  lemma TrimLower(s: string)
    ensures Trim(ToLowerCase(s)) == ToLowerCase(Trim(s))
  {
    TrimStartLower(s);
    TrimEndLower(TrimStart(s));
  }

  // ---------------------------------------------------------------------------
  // String.split on a single, non-metacharacter separator
  // ---------------------------------------------------------------------------

  /** The pieces of `s` between occurrences of `sep`, empty pieces included: one more piece
      than there are separators. */
  function Pieces(s: string, sep: char): (r: seq<string>)
    ensures |r| >= 1
    ensures forall k :: 0 <= k < |r| ==> sep !in r[k]
  {
    if s == [] then [[]]
    else
      var rest := Pieces(s[1..], sep);
      if s[0] == sep then [[]] + rest else [[s[0]] + rest[0]] + rest[1..]
  }

  /** The pieces with `sep` between them. */
  function Join(pieces: seq<string>, sep: char): string
  {
    if |pieces| == 0 then []
    else if |pieces| == 1 then pieces[0]
    else pieces[0] + [sep] + Join(pieces[1..], sep)
  }

  /** Joining the pieces gives back the string. */
  lemma {:induction false} JoinPieces(s: string, sep: char)
    ensures Join(Pieces(s, sep), sep) == s
  {
    if s != [] {
      JoinPieces(s[1..], sep);
      var rest := Pieces(s[1..], sep);
      var r := Pieces(s, sep);
      if s[0] == sep {
        assert r[1..] == rest;
        assert s == [sep] + s[1..];
      } else {
        assert r[1..] == rest[1..];
        if |rest| > 1 {
          assert Join(rest, sep) == rest[0] + [sep] + Join(rest[1..], sep);
          assert s == [s[0]] + s[1..];
        } else {
          assert s == [s[0]] + s[1..];
        }
      }
    }
  }

  /** A string without the separator is a single piece. */
  lemma {:induction false} PiecesWithoutSeparator(a: string, sep: char)
    requires sep !in a
    ensures Pieces(a, sep) == [a]
  {
    if a != [] {
      PiecesWithoutSeparator(a[1..], sep);
      assert a == [a[0]] + a[1..];
    }
  }

  /** The text before the first separator is the first piece; the rest splits on its own. */
  lemma {:induction false} PiecesAfterSeparator(a: string, b: string, sep: char)
    requires sep !in a
    ensures Pieces(a + [sep] + b, sep) == [a] + Pieces(b, sep)
  {
    if a == [] {
      assert a + [sep] + b == [sep] + b;
      assert ([sep] + b)[1..] == b;
    } else {
      PiecesAfterSeparator(a[1..], b, sep);
      var s := a + [sep] + b;
      assert s[1..] == a[1..] + [sep] + b;
      assert [a[0]] + a[1..] == a;
    }
  }

  /** Splitting the joined pieces gives back the pieces. */
  lemma {:induction false} PiecesOfJoin(pieces: seq<string>, sep: char)
    requires |pieces| >= 1
    requires forall k :: 0 <= k < |pieces| ==> sep !in pieces[k]
    ensures Pieces(Join(pieces, sep), sep) == pieces
  {
    if |pieces| == 1 {
      PiecesWithoutSeparator(pieces[0], sep);
    } else {
      PiecesOfJoin(pieces[1..], sep);
      PiecesAfterSeparator(pieces[0], Join(pieces[1..], sep), sep);
      assert [pieces[0]] + pieces[1..] == pieces;
    }
  }

  /** Removes the empty pieces at the end. */
  function DropTrailingEmpty(p: seq<string>): (r: seq<string>)
    ensures |r| <= |p| && r == p[..|r|]
    ensures r == [] || r[|r| - 1] != []
    ensures forall k :: |r| <= k < |p| ==> p[k] == []
  {
    if |p| > 0 && p[|p| - 1] == [] then DropTrailingEmpty(p[..|p| - 1]) else p
  }

  /** `s.split(sep)` with a separator that is not special in a regular expression: the pieces
      without the trailing empty ones, except that a string without `sep` is its own only piece
      (so `"".split(sep)` has one, empty, piece while `":".split(":")` has none). */
  function JavaSplit(s: string, sep: char): (r: seq<string>)
    ensures forall k :: 0 <= k < |r| ==> sep !in r[k]
  {
    if sep !in s then [s] else DropTrailingEmpty(Pieces(s, sep))
  }

  /** Two separator-free parts around one separator split into exactly those two parts,
      provided the second one is not empty. */
  lemma SplitAround(a: string, b: string, sep: char)
    requires sep !in a && sep !in b && b != []
    ensures JavaSplit(a + [sep] + b, sep) == [a, b]
  {
    PiecesAfterSeparator(a, b, sep);
    PiecesWithoutSeparator(b, sep);
    assert (a + [sep] + b)[|a|] == sep;
  }

  /** A non-empty, separator-free head followed by nothing or by a separator is the first
      piece of the split. */
  lemma SplitHead(a: string, b: string, sep: char)
    requires sep !in a && a != []
    requires b == [] || b[0] == sep
    ensures |JavaSplit(a + b, sep)| >= 1 && JavaSplit(a + b, sep)[0] == a
  {
    if b == [] {
      assert a + b == a;
    } else {
      assert b == [sep] + b[1..];
      assert a + b == a + [sep] + b[1..];
      PiecesAfterSeparator(a, b[1..], sep);
      assert (a + b)[|a|] == sep;
      var p := Pieces(a + b, sep);
      assert p[0] == a;
    }
  }

  /** The text of a string of separators, one fewer than there are (empty) pieces. */
  lemma {:induction false} JoinOfEmptyPieces(p: seq<string>, sep: char)
    requires |p| >= 1
    requires forall k :: 0 <= k < |p| ==> p[k] == []
    ensures |Join(p, sep)| == |p| - 1
    ensures forall i :: 0 <= i < |Join(p, sep)| ==> Join(p, sep)[i] == sep
  {
    if |p| > 1 {
      JoinOfEmptyPieces(p[1..], sep);
    }
  }

  /** Joining a piece list that ends in `n` empty pieces appends `n` separators. */
  lemma {:induction false} JoinWithEmptyTail(p: seq<string>, m: nat, sep: char)
    requires 1 <= m <= |p|
    requires forall k :: m <= k < |p| ==> p[k] == []
    ensures |Join(p, sep)| == |Join(p[..m], sep)| + (|p| - m)
    ensures Join(p, sep)[..|Join(p[..m], sep)|] == Join(p[..m], sep)
    ensures forall i :: |Join(p[..m], sep)| <= i < |Join(p, sep)| ==> Join(p, sep)[i] == sep
  {
    if m == 1 {
      if |p| > 1 {
        JoinOfEmptyPieces(p[1..], sep);
        assert p[..1] == [p[0]];
      } else {
        assert p[..1] == p;
      }
    } else {
      JoinWithEmptyTail(p[1..], m - 1, sep);
      assert p[1..][..m - 1] == p[..m][1..];
    }
  }

  /** What `split` loses: the joined pieces are the string without its trailing separators,
      all of them. In particular the split is empty exactly for a non-empty string of
      separators. */
  lemma SplitJoin(s: string, sep: char)
    ensures var j := Join(JavaSplit(s, sep), sep);
      |j| <= |s| && s[..|j|] == j && forall i :: |j| <= i < |s| ==> s[i] == sep
    ensures var j := Join(JavaSplit(s, sep), sep);
      j == [] || j[|j| - 1] != sep
  {
    var r := JavaSplit(s, sep);
    if sep in s {
      var p := Pieces(s, sep);
      JoinPieces(s, sep);
      if r == [] {
        JoinOfEmptyPieces(p, sep);
      } else {
        JoinWithEmptyTail(p, |r|, sep);
        JoinEndsWithLastPiece(r, sep);
      }
    } else if s != [] {
      assert s[|s| - 1] in s;
    }
  }

  /** Joined pieces end with the last piece, when that piece is not empty. */
  lemma {:induction false} JoinEndsWithLastPiece(pieces: seq<string>, sep: char)
    requires pieces != [] && pieces[|pieces| - 1] != []
    ensures var j := Join(pieces, sep);
      j != [] && j[|j| - 1] == pieces[|pieces| - 1][|pieces[|pieces| - 1]| - 1]
  {
    if |pieces| > 1 {
      JoinEndsWithLastPiece(pieces[1..], sep);
    }
  }

  /** When the split has two pieces or more, the first piece is the text before the first
      separator. */
  lemma SplitPrefix(s: string, sep: char)
    requires |JavaSplit(s, sep)| >= 2
    ensures var a := JavaSplit(s, sep)[0];
      |a| < |s| && s[..|a|] == a && s[|a|] == sep
  {
    var r := JavaSplit(s, sep);
    SplitJoin(s, sep);
    var j := Join(r, sep);
    assert j == r[0] + [sep] + Join(r[1..], sep);
    assert j[..|r[0]|] == r[0];
    assert s[..|r[0]|] == j[..|r[0]|];
    assert s[|r[0]|] == j[|r[0]|];
  }

  /** A non-empty string of separators splits into nothing. */
  lemma {:induction false} SplitOfSeparators(s: string, sep: char)
    requires s != [] && forall i :: 0 <= i < |s| ==> s[i] == sep
    ensures JavaSplit(s, sep) == []
  {
    assert s[0] == sep;
    var p := Pieces(s, sep);
    assert forall k :: 0 <= k < |p| ==> p[k] == [] by {
      PiecesOfSeparators(s, sep);
    }
  }

  lemma {:induction false} PiecesOfSeparators(s: string, sep: char)
    requires forall i :: 0 <= i < |s| ==> s[i] == sep
    ensures forall k :: 0 <= k < |Pieces(s, sep)| ==> Pieces(s, sep)[k] == []
  {
    if s != [] {
      PiecesOfSeparators(s[1..], sep);
    }
  }

  /** A separator at the end adds one empty piece. */
  lemma {:induction false} PiecesWithTrailingSeparator(s: string, sep: char)
    ensures Pieces(s + [sep], sep) == Pieces(s, sep) + [[]]
  {
    if s != [] {
      assert (s + [sep])[1..] == s[1..] + [sep];
      PiecesWithTrailingSeparator(s[1..], sep);
    }
  }

  /** Once a string has a separator, one more at its end does not change the split. */
  lemma SplitWithTrailingSeparator(s: string, sep: char)
    requires sep in s
    ensures JavaSplit(s + [sep], sep) == JavaSplit(s, sep)
  {
    PiecesWithTrailingSeparator(s, sep);
    var p := Pieces(s, sep);
    assert (p + [[]])[..|p|] == p;
  }

  /** A separator-free text followed by one separator splits into that text alone, or into
      nothing when the text is empty: never into two pieces. */
  lemma SplitWithOneTrailingSeparator(a: string, sep: char)
    requires sep !in a
    ensures JavaSplit(a + [sep], sep) == if a == [] then [] else [a]
  {
    PiecesAfterSeparator(a, [], sep);
    assert a + [sep] + [] == a + [sep];
    assert (a + [sep])[|a|] == sep;
    assert Pieces(a + [sep], sep) == [a, []];
    assert [a, []][..1] == [a];
    assert DropTrailingEmpty([a, []]) == DropTrailingEmpty([a]);
    if a == [] {
      assert [a][..0] == [];
    }
  }

  /** A string that starts with the separator has an empty first piece, if any. */
  lemma SplitOfLeadingSeparator(s: string, sep: char)
    requires s != [] && s[0] == sep
    ensures JavaSplit(s, sep) == [] || JavaSplit(s, sep)[0] == []
  {
    assert s[0] in s;
    var p := Pieces(s, sep);
    assert p[0] == [];
  }

  /** Three separator-free parts, the last one not empty, split into three pieces. */
  lemma SplitOfThree(a: string, b: string, c: string, sep: char)
    requires sep !in a && sep !in b && sep !in c && c != []
    ensures |JavaSplit(a + [sep] + b + [sep] + c, sep)| == 3
  {
    var s := a + [sep] + b + [sep] + c;
    assert s == a + [sep] + (b + [sep] + c);
    PiecesAfterSeparator(a, b + [sep] + c, sep);
    PiecesAfterSeparator(b, c, sep);
    PiecesWithoutSeparator(c, sep);
    assert s[|a|] == sep;
  }

  // ---------------------------------------------------------------------------
  // Integer.parseInt and Integer.toString
  // ---------------------------------------------------------------------------

  predicate IsDigit(c: char) {
    '0' <= c <= '9'
  }

  predicate AllDigits(s: string) {
    forall i :: 0 <= i < |s| ==> IsDigit(s[i])
  }

  /** The value of a string of decimal digits. */
  function DigitsValue(s: string): nat
    requires AllDigits(s)
  {
    if s == [] then 0 else DigitsValue(s[..|s| - 1]) * 10 + (s[|s| - 1] as int - '0' as int)
  }

  function ToInt32(v: int): Option<Int32> {
    if -0x8000_0000 <= v <= 0x7fff_ffff then Some(v) else None
  }

  /** `Integer.parseInt(s)`: an optional sign and at least one decimal digit, with a value in
      the range of `int`; anything else throws `NumberFormatException`, here `None`. Blanks are
      not accepted anywhere, which is why callers trim first. */
  function ParseInt(s: string): (r: Option<Int32>)
    ensures r.Some? ==> s != [] && !IsBlank(s[0]) && !IsBlank(s[|s| - 1])
  {
    if s == [] then None
    else if s[0] == '-' || s[0] == '+' then
      if |s| == 1 || !AllDigits(s[1..]) then None
      else
        assert IsDigit(s[1..][|s| - 2]);
        if s[0] == '-' then ToInt32(0 - DigitsValue(s[1..]) as int) else ToInt32(DigitsValue(s[1..]))
    else if AllDigits(s) then ToInt32(DigitsValue(s))
    else None
  }

  function DigitChar(d: nat): char
    requires d < 10
  {
    ('0' as int + d) as char
  }

  /** The decimal digits of `n`, without leading zeros. */
  function ShowNat(n: nat): (r: string)
    ensures r != [] && AllDigits(r)
  {
    if n < 10 then [DigitChar(n)] else ShowNat(n / 10) + [DigitChar(n % 10)]
  }

  /** `Integer.toString(n)`: a minus sign for negative values, then the digits. */
  function ShowInt(n: int): (r: string)
    ensures r != [] && (r[0] == '-' <==> n < 0)
    ensures n < 0 ==> r[1..] == ShowNat(-n)
    ensures n >= 0 ==> r == ShowNat(n)
  {
    if n < 0 then "-" + ShowNat(-n) else ShowNat(n)
  }

  lemma {:induction false} DigitsValueOfShowNat(n: nat)
    ensures DigitsValue(ShowNat(n)) == n
  {
    if n >= 10 {
      DigitsValueOfShowNat(n / 10);
      var s := ShowNat(n);
      assert s[..|s| - 1] == ShowNat(n / 10);
    }
  }

  /** `Integer.parseInt(Integer.toString(n)) == n`. */
  lemma ParseShowInt(n: Int32)
    ensures ParseInt(ShowInt(n)) == Some(n)
  {
    if n < 0 {
      DigitsValueOfShowNat(-(n as int));
      var s := ShowInt(n);
      assert s[1..] == ShowNat(-(n as int));
    } else {
      DigitsValueOfShowNat(n);
    }
  }

  /** Lower-casing never turns a char into a digit or a sign, nor a digit or a sign into
      something else, so it does not change what `parseInt` reads. */
  lemma ParseIntLower(t: string)
    ensures ParseInt(ToLowerCase(t)) == ParseInt(t)
  {
    var l := ToLowerCase(t);
    if AllDigits(t) {
      assert l == t;
    } else if t != [] && (t[0] == '-' || t[0] == '+') {
      assert l[0] == t[0];
      if AllDigits(t[1..]) {
        assert l[1..] == t[1..];
      } else {
        var i :| 0 <= i < |t[1..]| && !IsDigit(t[1..][i]);
        assert !IsDigit(l[1..][i]);
      }
    } else if t != [] {
      var i :| 0 <= i < |t| && !IsDigit(t[i]);
      assert !IsDigit(l[i]);
      assert l[0] != '-' && l[0] != '+';
    }
  }

  /** `Integer.parseInt(s.toLowerCase().trim())` reads what `Integer.parseInt(s.trim())` reads. */
  lemma ParseTrimmedLower(s: string)
    ensures ParseInt(Trim(ToLowerCase(s))) == ParseInt(Trim(s))
  {
    TrimLower(s);
    ParseIntLower(Trim(s));
  }

  /** `Integer.toString(n)` is made of digits and at most a leading minus sign, and ends in a
      digit. */
  lemma ShowIntChars(n: int)
    ensures ShowInt(n) != [] && IsDigit(ShowInt(n)[|ShowInt(n)| - 1])
    ensures forall i :: 0 <= i < |ShowInt(n)| ==> IsDigit(ShowInt(n)[i]) || ShowInt(n)[i] == '-'
  {
  }
}
