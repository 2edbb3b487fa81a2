/** The pieces of Python's string semantics the plugin relies on: `str.strip()`,
    `str.split(sep)`, `int(str)` in base 10 and the decimal rendering of a
    whole number. */
module Text {

  datatype Option<T> = None | Some(value: T)

  /** Python's `str.isspace()`: the characters `strip()` removes. */
  predicate IsSpace(c: char) {
    var n := c as int;
    (9 <= n <= 13) || (28 <= n <= 32) || n == 0x85 || n == 0xA0 || n == 0x1680
    || (0x2000 <= n <= 0x200A) || n == 0x2028 || n == 0x2029 || n == 0x202F
    || n == 0x205F || n == 0x3000
  }

  /** The whitespace `int()` skips around a literal: Python's whitespace except the four
      separators U+001C..U+001F, which `int()` treats as ordinary characters and rejects
      (ASCII text is trimmed by CPython's `Py_ISSPACE`, which matches only tab, newline,
      vertical tab, form feed, carriage return and space; other Unicode spaces are first
      turned into a blank). */
  predicate IsIntSpace(c: char) {
    IsSpace(c) && !(28 <= c as int <= 31)
  }

  predicate IsDigit(c: char) {
    '0' <= c <= '9'
  }

  function DigitValue(c: char): (d: nat)
    requires IsDigit(c)
    ensures d < 10
  {
    c as int - '0' as int
  }

  function DigitChar(d: nat): (c: char)
    requires d < 10
    ensures IsDigit(c) && DigitValue(c) == d
  {
    (48 + d) as char
  }

  // ---------------------------------------------------------------- strip

  /** The two sets of whitespace the plugin's Python calls trim: `strip()` cuts
      `str.isspace()` characters, `int()` skips the narrower `IsIntSpace` set. */
  datatype SpaceSet = StripSpace | IntSpace

  predicate InSpaceSet(w: SpaceSet, c: char) {
    match w
    case StripSpace => IsSpace(c)
    case IntSpace => IsIntSpace(c)
  }

  /** `s` without its leading characters from `w` (`s.lstrip()` for `StripSpace`). */
  function TrimStart(w: SpaceSet, s: string): (r: string)
    ensures |r| <= |s| && r == s[|s| - |r|..]
    ensures r == [] || !InSpaceSet(w, r[0])
  {
    if s != [] && InSpaceSet(w, s[0]) then TrimStart(w, s[1..]) else s
  }

  /** `s` without its trailing characters from `w` (`s.rstrip()` for `StripSpace`). */
  function TrimEnd(w: SpaceSet, s: string): (r: string)
    ensures |r| <= |s| && r == s[..|r|]
    ensures r == [] || !InSpaceSet(w, r[|r| - 1])
  {
    if s != [] && InSpaceSet(w, s[|s| - 1]) then TrimEnd(w, s[..|s| - 1]) else s
  }

  /** `s` without the characters from `w` on either side. */
  function Trim(w: SpaceSet, s: string): (r: string)
    ensures |r| <= |s|
    ensures r == [] || (!InSpaceSet(w, r[0]) && !InSpaceSet(w, r[|r| - 1]))
  {
    TrimEnd(w, TrimStart(w, s))
  }

  /** `r` sits in `s` at position `i`, with only characters from `w` before and after it. */
  predicate TrimmedSliceAt(w: SpaceSet, s: string, r: string, i: nat) {
    && i + |r| <= |s| && r == s[i..i + |r|]
    && (forall k :: 0 <= k < i ==> InSpaceSet(w, s[k]))
    && (forall k :: i + |r| <= k < |s| ==> InSpaceSet(w, s[k]))
  }

  /** What a trim returns is a slice of its input, and only characters from `w` were cut
      away on either side. */
  lemma TrimIsTrimmedSlice(w: SpaceSet, s: string)
    ensures exists i :: TrimmedSliceAt(w, s, Trim(w, s), i)
  {
    var t := TrimStart(w, s);
    var r := TrimEnd(w, t);
    TrimStartSkipsSpace(w, s);
    TrimEndSkipsSpace(w, t);
    TrimmedSlice(w, s, t, r, |s| - |t|);
    assert r == Trim(w, s);
  }

  /** Only characters from `w` are cut away at the start. */
  lemma {:induction false} TrimStartSkipsSpace(w: SpaceSet, s: string)
    ensures forall k :: 0 <= k < |s| - |TrimStart(w, s)| ==> InSpaceSet(w, s[k])
  {
    if s != [] && InSpaceSet(w, s[0]) {
      TrimStartSkipsSpace(w, s[1..]);
      forall k | 1 <= k < |s| - |TrimStart(w, s)| ensures InSpaceSet(w, s[k]) {
        assert s[k] == s[1..][k - 1];
      }
    }
  }

  /** Only characters from `w` are cut away at the end. */
  lemma {:induction false} TrimEndSkipsSpace(w: SpaceSet, s: string)
    ensures forall k :: |TrimEnd(w, s)| <= k < |s| ==> InSpaceSet(w, s[k])
  {
    if s != [] && InSpaceSet(w, s[|s| - 1]) {
      var init := s[..|s| - 1];
      TrimEndSkipsSpace(w, init);
      forall k | |TrimEnd(w, s)| <= k < |s| - 1 ensures InSpaceSet(w, s[k]) {
        assert s[k] == init[k];
      }
    }
  }

  /** `r`, a prefix of the suffix `t == s[i..]`, with only characters from `w` before `t`
      and after `r` in `t`, sits in `s` at `i` with only such characters around it. */
  lemma TrimmedSlice(w: SpaceSet, s: string, t: string, r: string, i: nat)
    requires i <= |s| && t == s[i..]
    requires forall k :: 0 <= k < i ==> InSpaceSet(w, s[k])
    requires |r| <= |t| && r == t[..|r|]
    requires forall k :: |r| <= k < |t| ==> InSpaceSet(w, t[k])
    ensures TrimmedSliceAt(w, s, r, i)
  {
    forall k | i + |r| <= k < |s| ensures InSpaceSet(w, s[k]) {
      assert s[k] == t[k - i];
    }
  }

  /** A string that neither starts nor ends with a character from `w` is left alone. */
  lemma TrimKeepsTrimmed(w: SpaceSet, s: string)
    requires s == [] || (!InSpaceSet(w, s[0]) && !InSpaceSet(w, s[|s| - 1]))
    ensures Trim(w, s) == s
  {
  }

  /** Padding from `w` in front of `t` is cut away, and nothing of `t`. */
  lemma {:induction false} TrimStartPadded(w: SpaceSet, pre: string, t: string)
    requires forall k :: 0 <= k < |pre| ==> InSpaceSet(w, pre[k])
    requires t == [] || !InSpaceSet(w, t[0])
    ensures TrimStart(w, pre + t) == t
  {
    if pre == [] {
      assert pre + t == t;
    } else {
      assert (pre + t)[1..] == pre[1..] + t;
      TrimStartPadded(w, pre[1..], t);
    }
  }

  /** Padding from `w` after `t` is cut away, and nothing of `t`. */
  lemma {:induction false} TrimEndPadded(w: SpaceSet, t: string, post: string)
    requires forall k :: 0 <= k < |post| ==> InSpaceSet(w, post[k])
    requires t == [] || !InSpaceSet(w, t[|t| - 1])
    ensures TrimEnd(w, t + post) == t
  {
    if post == [] {
      assert t + post == t;
    } else {
      var init := post[..|post| - 1];
      assert (t + post)[..|t + post| - 1] == t + init;
      TrimEndPadded(w, t, init);
    }
  }

  /** Text padded on both sides with characters from `w` trims to the text itself. */
  lemma TrimPadded(w: SpaceSet, pre: string, t: string, post: string)
    requires forall k :: 0 <= k < |pre| ==> InSpaceSet(w, pre[k])
    requires forall k :: 0 <= k < |post| ==> InSpaceSet(w, post[k])
    requires t != [] && !InSpaceSet(w, t[0]) && !InSpaceSet(w, t[|t| - 1])
    ensures Trim(w, pre + t + post) == t
  {
    assert pre + t + post == pre + (t + post);
    TrimStartPadded(w, pre, t + post);
    TrimEndPadded(w, t, post);
  }

  /** `s.strip()`: `s` with its leading and trailing whitespace removed. */
  function Strip(s: string): (r: string)
    ensures |r| <= |s|
    ensures r == [] || (!IsSpace(r[0]) && !IsSpace(r[|r| - 1]))
  {
    Trim(StripSpace, s)
  }

  /** `not s.strip()` holds exactly when `s` is nothing but whitespace. */
  lemma StripBlankIff(s: string)
    ensures Strip(s) == [] <==> forall k :: 0 <= k < |s| ==> IsSpace(s[k])
  {
    TrimIsTrimmedSlice(StripSpace, s);
  }

  /** Stripping twice is stripping once. */
  lemma StripIdempotent(s: string)
    ensures Strip(Strip(s)) == Strip(s)
  {
    TrimKeepsTrimmed(StripSpace, Strip(s));
  }

  // ---------------------------------------------------------------- split

  /** `s.split(sep)` for a one-character separator: the maximal runs between separators,
      always at least one piece (the empty string splits to `[""]`). */
  function Split(s: string, sep: char): (pieces: seq<string>)
    ensures |pieces| >= 1
    ensures forall p :: p in pieces ==> sep !in p
  {
    if s == [] then [[]]
    else
      var rest := Split(s[1..], sep);
      if s[0] == sep then [[]] + rest
      else [[s[0]] + rest[0]] + rest[1..]
  }

  /** `sep.join(pieces)` */
  function Join(pieces: seq<string>, sep: char): string
    requires |pieces| >= 1
  {
    if |pieces| == 1 then pieces[0] else pieces[0] + [sep] + Join(pieces[1..], sep)
  }

  /** Splitting loses nothing: joining the pieces back gives the original string. */
  lemma {:induction false} JoinSplit(s: string, sep: char)
    ensures Join(Split(s, sep), sep) == s
  {
    if s != [] {
      var rest := Split(s[1..], sep);
      JoinSplit(s[1..], sep);
      if s[0] != sep {
        if |rest| > 1 {
          assert [s[0]] + rest[0] + [sep] + Join(rest[1..], sep) == [s[0]] + Join(rest, sep);
        }
      }
    }
  }

  /** Pieces free of the separator are recovered exactly by splitting their join. */
  lemma {:induction false} SplitJoin(pieces: seq<string>, sep: char)
    requires |pieces| >= 1
    requires forall k :: 0 <= k < |pieces| ==> sep !in pieces[k]
    ensures Split(Join(pieces, sep), sep) == pieces
  {
    if |pieces| == 1 {
      SplitPlain(pieces[0], sep);
    } else {
      SplitJoin(pieces[1..], sep);
      SplitPrefix(pieces[0], Join(pieces[1..], sep), sep);
      assert [[]] + Split(Join(pieces[1..], sep), sep) == [[]] + pieces[1..];
      assert pieces == [pieces[0]] + pieces[1..];
    }
  }

  /** A string without the separator splits to itself. */
  lemma {:induction false} SplitPlain(s: string, sep: char)
    requires sep !in s
    ensures Split(s, sep) == [s]
  {
    if s != [] {
      SplitPlain(s[1..], sep);
      assert [s[0]] + s[1..] == s;
    }
  }

  /** Splitting `p + sep + rest` for a separator-free `p`. */
  lemma {:induction false} SplitPrefix(p: string, rest: string, sep: char)
    requires sep !in p
    ensures Split(p + [sep] + rest, sep) == [p] + Split(rest, sep)
  {
    if p == [] {
      assert [] + [sep] + rest == [sep] + rest;
      assert ([sep] + rest)[1..] == rest;
    } else {
      var s := p + [sep] + rest;
      assert s[1..] == p[1..] + [sep] + rest;
      SplitPrefix(p[1..], rest, sep);
      assert [p[0]] + p[1..] == p;
    }
  }

  /** `s.split(sep)` has one more piece than `s` has separators. */
  lemma {:induction false} SplitCount(s: string, sep: char)
    ensures |Split(s, sep)| == multiset(s)[sep] + 1
  {
    if s != [] {
      SplitCount(s[1..], sep);
      assert s == [s[0]] + s[1..];
      assert multiset(s) == multiset{s[0]} + multiset(s[1..]);
    }
  }

  // ---------------------------------------------------------------- int()

  /** The text `int()` reads: `s` without the whitespace it skips on either side. */
  function IntStrip(s: string): (r: string)
    ensures |r| <= |s|
    ensures r == [] || (!IsIntSpace(r[0]) && !IsIntSpace(r[|r| - 1]))
  {
    Trim(IntSpace, s)
  }

  /** The digit part of a Python integer literal: decimal digits, with single
      underscores allowed between two digits (`"1_000"`). */
  predicate IsDigitBody(s: string) {
    && |s| > 0 && IsDigit(s[0])
    && (forall k :: 0 <= k < |s| ==> IsDigit(s[k]) || s[k] == '_')
    && (forall k :: 0 <= k < |s| && s[k] == '_' ==> k + 1 < |s| && IsDigit(s[k + 1]))
  }

  /** The value of a run of digits and underscores, underscores ignored. */
  function DigitsValue(s: string): nat
    requires forall k :: 0 <= k < |s| ==> IsDigit(s[k]) || s[k] == '_'
  {
    if s == [] then 0
    else if s[|s| - 1] == '_' then DigitsValue(s[..|s| - 1])
    else 10 * DigitsValue(s[..|s| - 1]) + DigitValue(s[|s| - 1])
  }

  /** An optional sign in front of an integer literal: nothing, `+` or `-`. */
  predicate IsSign(sign: string) {
    sign == [] || sign == ['+'] || sign == ['-']
  }

  /** The number a signed digit body denotes. */
  function LiteralValue(sign: string, body: string): int
    requires IsDigitBody(body)
  {
    if sign == ['-'] then -(DigitsValue(body) as int) else DigitsValue(body)
  }

  /** The sign `int()` takes from the front of the trimmed text, if any. */
  function SignPart(t: string): (sign: string)
    ensures IsSign(sign) && |sign| <= |t| && sign + t[|sign|..] == t
  {
    if t != [] && (t[0] == '+' || t[0] == '-') then t[..1] else []
  }

  /** `int(s)` in base 10: surrounding whitespace, an optional sign, then the digit
      body; `None` where Python raises `ValueError`. */
  function ParseInt(s: string): (r: Option<int>)
    ensures r.Some? ==> IntStrip(s) != []
    ensures r.Some? && r.value < 0 ==> IntStrip(s)[0] == '-'
  {
    var t := IntStrip(s);
    var sign := SignPart(t);
    var body := t[|sign|..];
    if IsDigitBody(body) then Some(LiteralValue(sign, body)) else None
  }

  /** `pre + sign + body + post` is spelled as `int()` expects: whitespace it skips,
      an optional sign, a digit body, whitespace it skips. */
  predicate IsIntLiteral(pre: string, sign: string, body: string, post: string) {
    && (forall k :: 0 <= k < |pre| ==> IsIntSpace(pre[k]))
    && IsSign(sign) && IsDigitBody(body)
    && (forall k :: 0 <= k < |post| ==> IsIntSpace(post[k]))
  }

  /** `int()` skips the padding and reads the signed body: `int(" +1_0 ") == 10`. */
  lemma ParseIntLiteral(pre: string, sign: string, body: string, post: string)
    requires IsIntLiteral(pre, sign, body, post)
    ensures ParseInt(pre + sign + body + post) == Some(LiteralValue(sign, body))
  {
    var t := sign + body;
    LiteralTrimmed(sign, body);
    assert pre + sign + body + post == pre + t + post;
    TrimPadded(IntSpace, pre, t, post);
    assert SignPart(t) == sign;
    assert t[|sign|..] == body;
  }

  /** A signed digit body neither starts nor ends with whitespace `int()` skips. */
  lemma LiteralTrimmed(sign: string, body: string)
    requires IsSign(sign) && IsDigitBody(body)
    ensures var t := sign + body;
      t != [] && !InSpaceSet(IntSpace, t[0]) && !InSpaceSet(IntSpace, t[|t| - 1])
  {
    var t := sign + body;
    assert IsDigit(body[|body| - 1]);
    assert t[|t| - 1] == body[|body| - 1];
    assert IsDigit(t[0]) || t[0] == '+' || t[0] == '-';
  }

  /** Conversely, whatever `int()` accepts is such a literal, read as its signed body. */
  lemma ParseIntShape(s: string)
    requires ParseInt(s).Some?
    ensures exists pre, sign, body, post ::
      && IsIntLiteral(pre, sign, body, post)
      && s == pre + sign + body + post
      && ParseInt(s).value == LiteralValue(sign, body)
  {
    var t := IntStrip(s);
    TrimIsTrimmedSlice(IntSpace, s);
    var i: nat :| TrimmedSliceAt(IntSpace, s, t, i);
    var sign := SignPart(t);
    var body := t[|sign|..];
    LiteralAround(s, t, i, sign, body, ParseInt(s).value);
  }

  /** No character of an integer literal is a colon. */
  lemma LiteralHasNoColon(pre: string, sign: string, body: string, post: string)
    requires IsIntLiteral(pre, sign, body, post)
    ensures ':' !in pre + sign + body + post
  {
    assert ':' !in pre by {
      forall k | 0 <= k < |pre| ensures pre[k] != ':' {
        assert IsIntSpace(pre[k]);
      }
    }
    assert ':' !in post by {
      forall k | 0 <= k < |post| ensures post[k] != ':' {
        assert IsIntSpace(post[k]);
      }
    }
    assert ':' !in body by {
      forall k | 0 <= k < |body| ensures body[k] != ':' {
        assert IsDigit(body[k]) || body[k] == '_';
      }
    }
  }

  /** A signed digit body that sits in `s` with only whitespace `int()` skips around it
      makes `s` a literal of that body. */
  lemma LiteralAround(s: string, t: string, i: nat, sign: string, body: string, v: int)
    requires TrimmedSliceAt(IntSpace, s, t, i)
    requires IsSign(sign) && IsDigitBody(body) && t == sign + body
    requires v == LiteralValue(sign, body)
    ensures exists pre, sign, body, post ::
      && IsIntLiteral(pre, sign, body, post)
      && s == pre + sign + body + post
      && v == LiteralValue(sign, body)
  {
    var pre, post := s[..i], s[i + |t|..];
    PaddingIsIntSpace(s, t, i, pre, post);
    SliceAround(s, i, pre, sign, body, post);
    assert IsIntLiteral(pre, sign, body, post);
  }

  /** Cutting `s` before and after a slice and splitting the slice in two loses nothing. */
  lemma SliceAround(s: string, i: nat, pre: string, sign: string, body: string, post: string)
    requires i + |sign + body| <= |s| && sign + body == s[i..i + |sign + body|]
    requires pre == s[..i] && post == s[i + |sign + body|..]
    ensures s == pre + sign + body + post
  {
    var j := i + |sign + body|;
    assert s == s[..i] + s[i..j] + s[j..];
  }

  /** The whitespace around the text `int()` reads is whitespace it skips. */
  lemma PaddingIsIntSpace(s: string, t: string, i: nat, pre: string, post: string)
    requires TrimmedSliceAt(IntSpace, s, t, i)
    requires pre == s[..i] && post == s[i + |t|..]
    ensures forall k :: 0 <= k < |pre| ==> IsIntSpace(pre[k])
    ensures forall k :: 0 <= k < |post| ==> IsIntSpace(post[k])
  {
    forall k | 0 <= k < |pre| ensures IsIntSpace(pre[k]) {
      assert InSpaceSet(IntSpace, s[k]);
    }
    forall k | 0 <= k < |post| ensures IsIntSpace(post[k]) {
      assert InSpaceSet(IntSpace, s[i + |t| + k]);
    }
  }

  /** The decimal rendering of a whole number, no leading zeros (`str(n)`, `f"{n:.0f}"`). */
  function Decimal(n: nat): (r: string)
    ensures |r| >= 1
    ensures forall k :: 0 <= k < |r| ==> IsDigit(r[k])
    ensures n > 0 ==> r[0] != '0'
  {
    if n < 10 then [DigitChar(n)] else Decimal(n / 10) + [DigitChar(n % 10)]
  }

  /** Reading a rendered number back gives the number. */
  lemma {:induction false} DecimalValue(n: nat)
    ensures DigitsValue(Decimal(n)) == n
  {
    if n >= 10 {
      var r := Decimal(n);
      DecimalValue(n / 10);
      assert r[..|r| - 1] == Decimal(n / 10);
    }
  }

  /** `int(str(n)) == n`. */
  lemma ParseDecimal(n: nat)
    ensures ParseInt(Decimal(n)) == Some(n)
  {
    ParseDigits(Decimal(n));
    DecimalValue(n);
  }

  /** Two numbers render alike exactly when they are equal. */
  lemma DecimalInjective(a: nat, b: nat)
    ensures Decimal(a) == Decimal(b) <==> a == b
  {
    DecimalValue(a);
    DecimalValue(b);
  }

  /** `int()` of a plain run of digits is its decimal value. */
  lemma ParseDigits(s: string)
    requires |s| > 0 && forall k :: 0 <= k < |s| ==> IsDigit(s[k])
    ensures ParseInt(s) == Some(DigitsValue(s) as int)
  {
    assert IsDigitBody(s);
    LiteralTrimmed([], s);
    assert [] + s == s;
    TrimKeepsTrimmed(IntSpace, s);
    assert SignPart(s) == [];
  }

  /** The value of two digits. */
  lemma DigitsValuePair(a: char, b: char)
    requires IsDigit(a) && IsDigit(b)
    ensures DigitsValue([a, b]) == 10 * DigitValue(a) + DigitValue(b)
  {
    OneDigitValue(a);
    assert b != '_';
    assert [a, b][..1] == [a];
  }

  /** The value of one digit. */
  lemma OneDigitValue(c: char)
    requires IsDigit(c)
    ensures DigitsValue([c]) == DigitValue(c)
  {
    assert c != '_';
    assert [c][..0] == [];
  }

  /** `int()` of a single digit. */
  lemma ParseOneDigit(c: char)
    requires IsDigit(c)
    ensures ParseInt([c]) == Some(DigitValue(c) as int)
  {
    OneDigitValue(c);
    ParseDigits([c]);
  }

  /** `strip()` removes the separators U+001C..U+001F but `int()` does not skip them:
      a literal preceded by one is rejected, while stripping would discard it. */
  lemma IntRejectsSeparator(c: char, s: string)
    requires 28 <= c as int <= 31
    ensures ParseInt([c] + s) == None
    ensures Strip([c] + s) == Strip(s)
  {
    var t := [c] + s;
    assert TrimStart(IntSpace, t) == t;
    assert t[1..] == s;
  }
}
