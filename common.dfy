/** Text and number helpers shared by every part of the model: the string
    operations of Python (`str.split`, `str.strip`, `str.lower`, `str.replace`,
    `str.join`, `int`) and of JavaScript (`trim`, `includes`, `split`,
    `parseInt`) that the application's rules are written with, stated on
    `seq<char>`. */
module Common {

  datatype Option<T> = None | Some(value: T)

  // ---------------------------------------------------------------------------
  // Character classes

  /** The whitespace characters that `str.split()`, `str.strip()`, `\s` and
      JavaScript's `trim()` all treat as blank (the ASCII ones and NBSP). */
  predicate IsSpace(c: char) {
    c == ' ' || c == '\t' || c == '\n' || c == '\r' ||
    c == '\U{000B}' || c == '\U{000C}' || c == '\U{00A0}'
  }

  predicate IsDigit(c: char) { '0' <= c <= '9' }

  predicate IsAsciiLetter(c: char) { 'a' <= c <= 'z' || 'A' <= c <= 'Z' }

  /** Cyrillic block U+0400..U+04FF, the script the application's texts use. */
  predicate IsCyrillic(c: char) { '\U{0400}' <= c <= '\U{04FF}' }

  /** A character of the regular-expression class `\w`: letters, digits, `_`. */
  predicate IsWordChar(c: char) {
    IsAsciiLetter(c) || IsDigit(c) || c == '_' || IsCyrillic(c)
  }

  predicate NoSpace(s: string) { forall i :: 0 <= i < |s| ==> !IsSpace(s[i]) }

  predicate AllSpace(s: string) { forall i :: 0 <= i < |s| ==> IsSpace(s[i]) }

  predicate AllDigits(s: string) { forall i :: 0 <= i < |s| ==> IsDigit(s[i]) }

  /** Python's `str.isdigit()`: non-empty and made of digits only. */
  predicate IsDigitString(s: string) { |s| > 0 && AllDigits(s) }

  // ---------------------------------------------------------------------------
  // Case mapping

  /** Lower-case mapping of one character for the Latin and Cyrillic capitals. */
  function LowerChar(c: char): (r: char)
    ensures IsSpace(r) <==> IsSpace(c)
    ensures IsDigit(r) <==> IsDigit(c)
    ensures !('A' <= r <= 'Z') && !('\U{0410}' <= r <= '\U{042F}')
  {
    if 'A' <= c <= 'Z' then ((c as int) + 32) as char
    else if '\U{0410}' <= c <= '\U{042F}' then ((c as int) + 0x20) as char
    else if '\U{0400}' <= c <= '\U{040F}' then ((c as int) + 0x50) as char
    else c
  }

  function Lower(s: string): (r: string)
    ensures |r| == |s|
    ensures forall i :: 0 <= i < |s| ==> r[i] == LowerChar(s[i])
  {
    seq(|s|, i requires 0 <= i < |s| => LowerChar(s[i]))
  }

  lemma LowerIdempotent(s: string)
    ensures Lower(Lower(s)) == Lower(s)
  {
    forall i | 0 <= i < |s| ensures LowerChar(LowerChar(s[i])) == LowerChar(s[i]) {
    }
  }

  // ---------------------------------------------------------------------------
  // Stripping blanks (Python `str.strip()`, JavaScript `trim()`)

  /** Length of the leading run of blanks (`\s*`). */
  function SpaceRunLen(s: string): (n: nat)
    ensures n <= |s| && AllSpace(s[..n])
    ensures n < |s| ==> !IsSpace(s[n])
  {
    if s == [] || !IsSpace(s[0]) then 0 else 1 + SpaceRunLen(s[1..])
  }

  /** Length of the trailing run of blanks. */
  function TrailingSpaceLen(s: string): (n: nat)
    ensures n <= |s| && AllSpace(s[|s| - n..])
    ensures n < |s| ==> !IsSpace(s[|s| - 1 - n])
  {
    if s == [] || !IsSpace(s[|s| - 1]) then 0
    else
      var p := s[..|s| - 1];
      var n := TrailingSpaceLen(p);
      assert s[|s| - (n + 1)..] == p[|p| - n..] + [s[|s| - 1]];
      n + 1
  }

  /** JavaScript `trimStart()`: the blanks in front removed. */
  function TrimStart(s: string): (r: string)
    ensures |r| <= |s|
    ensures r == [] || !IsSpace(r[0])
  {
    s[SpaceRunLen(s)..]
  }

  /** `s.strip()`: `s` is the result surrounded by blanks only, and the result
      neither starts nor ends with a blank. */
  function Strip(s: string): (r: string)
    ensures SpaceRunLen(s) + |r| <= |s|
    ensures r == s[SpaceRunLen(s)..SpaceRunLen(s) + |r|]
    ensures AllSpace(s[..SpaceRunLen(s)]) && AllSpace(s[SpaceRunLen(s) + |r|..])
    ensures r == [] || (!IsSpace(r[0]) && !IsSpace(r[|r| - 1]))
  {
    var i := SpaceRunLen(s);
    var t := s[i..];
    var n := TrailingSpaceLen(t);
    StripSlices(s, i, t, n, t[..|t| - n]);
    t[..|t| - n]
  }

  lemma StripSlices(s: string, i: nat, t: string, n: nat, r: string)
    requires i <= |s| && t == s[i..] && n <= |t| && AllSpace(t[|t| - n..]) && r == t[..|t| - n]
    requires i < |s| ==> !IsSpace(s[i])
    requires n < |t| ==> !IsSpace(t[|t| - 1 - n])
    ensures r == s[i..i + |r|] && AllSpace(s[i + |r|..])
    ensures r == [] || (!IsSpace(r[0]) && !IsSpace(r[|r| - 1]))
  {
    TakeOfDrop(s, i, |t| - n);
    DropOfDrop(s, i, |t| - n);
    if r != [] {
      assert r[0] == s[i];
      assert r[|r| - 1] == t[|t| - 1 - n];
    }
  }

  lemma TakeOfDrop(s: string, i: nat, n: nat)
    requires i + n <= |s|
    ensures s[i..][..n] == s[i..i + n]
  {
    forall k | 0 <= k < n ensures s[i..][..n][k] == s[i..i + n][k] {
      assert s[i..][..n][k] == s[i + k];
    }
  }

  lemma DropOfDrop(s: string, i: nat, n: nat)
    requires i + n <= |s|
    ensures s[i..][n..] == s[i + n..]
  {
    forall k | 0 <= k < |s| - i - n ensures s[i..][n..][k] == s[i + n..][k] {
      assert s[i..][n..][k] == s[i + n + k];
    }
  }

  lemma AllSpaceConcat(a: string, b: string)
    requires AllSpace(a) && AllSpace(b)
    ensures AllSpace(a + b)
  {
    forall k | 0 <= k < |a + b| ensures IsSpace((a + b)[k]) {
      if k < |a| { assert (a + b)[k] == a[k]; } else { assert (a + b)[k] == b[k - |a|]; }
    }
  }

  lemma StripBlank(s: string)
    ensures Strip(s) == [] <==> AllSpace(s)
  {
    var r, i := Strip(s), SpaceRunLen(s);
    if r == [] {
      AllSpaceConcat(s[..i], s[i..]);
      assert s[..i] + s[i..] == s;
    } else {
      assert s[i] == r[0];
    }
  }

  /** A string with no blank at either end is its own strip. */
  lemma StripUnchanged(s: string)
    requires s == [] || (!IsSpace(s[0]) && !IsSpace(s[|s| - 1]))
    ensures Strip(s) == s
  {
  }

  /** Stripping twice is stripping once. */
  lemma StripIdempotent(s: string)
    ensures Strip(Strip(s)) == Strip(s)
  {
    StripUnchanged(Strip(s));
  }

  // ---------------------------------------------------------------------------
  // Splitting on blanks (Python `str.split()` with no argument)

  /** Length of the leading run of non-blank characters. */
  function WordLen(s: string): (n: nat)
    ensures n <= |s| && NoSpace(s[..n])
    ensures n < |s| ==> IsSpace(s[n])
  {
    if s == [] || IsSpace(s[0]) then 0 else 1 + WordLen(s[1..])
  }

  function Split(s: string): (r: seq<string>)
    ensures forall k :: 0 <= k < |r| ==> r[k] != [] && NoSpace(r[k])
    decreases |s|
  {
    var t := TrimStart(s);
    if t == [] then []
    else
      var n := WordLen(t);
      [t[..n]] + Split(t[n..])
  }

  /** `sep.join(ws)`. */
  function Join(ws: seq<string>, sep: string): string
  {
    if |ws| == 0 then []
    else if |ws| == 1 then ws[0]
    else ws[0] + sep + Join(ws[1..], sep)
  }

  lemma SplitBlank(s: string)
    ensures Split(s) == [] <==> AllSpace(s)
  {
    var t := TrimStart(s);
    if t == [] {
      assert s[..|s|] == s;
    } else {
      assert !AllSpace(s) by { assert s[|s| - |t|] == t[0]; }
    }
  }

  lemma WordLenOfWordThenSpace(w: string, rest: string)
    requires NoSpace(w) && (rest == [] || IsSpace(rest[0]))
    ensures WordLen(w + rest) == |w|
    decreases |w|
  {
    if w != [] {
      assert (w + rest)[1..] == w[1..] + rest;
      WordLenOfWordThenSpace(w[1..], rest);
    } else {
      assert w + rest == rest;
    }
  }

  lemma SplitSpaceFront(rest: string)
    ensures Split(" " + rest) == Split(rest)
  {
    assert (" " + rest)[1..] == rest;
  }

  /** A leading word followed by a blank is split off first. */
  lemma SplitCons(w: string, rest: string)
    requires w != [] && NoSpace(w) && (rest == [] || IsSpace(rest[0]))
    ensures Split(w + rest) == [w] + Split(rest)
  {
    var t := w + rest;
    assert TrimStart(t) == t by { assert t[0] == w[0]; }
    WordLenOfWordThenSpace(w, rest);
    assert t[..|w|] == w;
    assert t[|w|..] == rest;
  }

  /** Joining two or more words puts the first one in front of a blank. */
  lemma JoinCons(ws: seq<string>, sep: string)
    requires |ws| > 1
    ensures Join(ws, sep) == ws[0] + (sep + Join(ws[1..], sep))
  {
    assert ws[0] + sep + Join(ws[1..], sep) == ws[0] + (sep + Join(ws[1..], sep));
  }

  lemma SplitWordBlank(w: string, rest: string, tail: seq<string>)
    requires w != [] && NoSpace(w) && Split(rest) == tail
    ensures Split(w + (" " + rest)) == [w] + tail
  {
    SplitCons(w, " " + rest);
    SplitSpaceFront(rest);
  }

  lemma SplitOneWord(w: string)
    requires w != [] && NoSpace(w)
    ensures Split(w) == [w]
  {
    SplitCons(w, []);
    assert w + [] == w;
  }

  lemma SplitJoinCons(ws: seq<string>)
    requires |ws| > 1 && ws[0] != [] && NoSpace(ws[0]) && Split(Join(ws[1..], " ")) == ws[1..]
    ensures Split(Join(ws, " ")) == ws
  {
    JoinCons(ws, " ");
    SplitWordBlank(ws[0], Join(ws[1..], " "), ws[1..]);
    assert [ws[0]] + ws[1..] == ws;
  }

  /** Splitting the words joined by one blank gives the words back. */
  lemma {:induction false} SplitJoin(ws: seq<string>)
    requires forall k :: 0 <= k < |ws| ==> ws[k] != [] && NoSpace(ws[k])
    ensures Split(Join(ws, " ")) == ws
    decreases |ws|
  {
    if |ws| == 1 {
      SplitOneWord(ws[0]);
      assert [ws[0]] == ws;
    } else if |ws| > 1 {
      var tail := ws[1..];
      forall k | 0 <= k < |tail| ensures tail[k] != [] && NoSpace(tail[k]) {
        assert tail[k] == ws[k + 1];
      }
      SplitJoin(tail);
      SplitJoinCons(ws);
    }
  }

  // ---------------------------------------------------------------------------
  // Splitting on a separator character (Python and JavaScript `s.split(c)`)

  function IndexOf(s: string, c: char): (r: Option<nat>)
    ensures r.None? <==> c !in s
    ensures r.Some? ==> r.value < |s| && s[r.value] == c && c !in s[..r.value]
  {
    if s == [] then None
    else if s[0] == c then Some(0)
    else
      match IndexOf(s[1..], c)
      case None => None
      case Some(k) => assert s[1..][..k] == s[1..k + 1]; Some(k + 1)
  }

  function SplitOn(s: string, c: char): (r: seq<string>)
    ensures |r| >= 1
    ensures forall k :: 0 <= k < |r| ==> c !in r[k]
    decreases |s|
  {
    match IndexOf(s, c)
    case None => [s]
    case Some(n) => [s[..n]] + SplitOn(s[n + 1..], c)
  }

  /** The pieces joined back with the separator are the original text. */
  lemma {:induction false} JoinSplitOn(s: string, c: char)
    ensures Join(SplitOn(s, c), [c]) == s
    decreases |s|
  {
    match IndexOf(s, c)
    case None =>
    case Some(n) =>
      JoinSplitOn(s[n + 1..], c);
      var tail := SplitOn(s[n + 1..], c);
      assert SplitOn(s, c) == [s[..n]] + tail;
      assert (SplitOn(s, c))[1..] == tail;
      assert s == s[..n] + [c] + s[n + 1..];
  }

  lemma {:induction false} IndexOfAppend(a: string, c: char, b: string)
    requires c !in a
    ensures IndexOf(a + [c] + b, c) == Some(|a|)
  {
    if a != [] {
      IndexOfAppend(a[1..], c, b);
      assert (a + [c] + b)[1..] == a[1..] + [c] + b;
    }
  }

  /** A piece without the separator, then the separator, is split off first. */
  lemma SplitOnCons(w: string, c: char, rest: string, tail: seq<string>)
    requires c !in w && SplitOn(rest, c) == tail
    ensures SplitOn(w + ([c] + rest), c) == [w] + tail
  {
    var s := w + ([c] + rest);
    assert s == w + [c] + rest;
    IndexOfAppend(w, c, rest);
    PieceSlices(s, w, c, rest);
  }

  lemma PieceSlices(s: string, w: string, c: char, rest: string)
    requires s == w + ([c] + rest)
    ensures s[..|w|] == w && s[|w| + 1..] == rest
  {
    assert s[..|w|] == w;
    assert s[|w| + 1..] == rest;
  }

  /** Splitting pieces joined with a separator they do not contain gives
      the pieces back. */
  lemma {:induction false} SplitOnJoin(ws: seq<string>, c: char)
    requires ws != [] && forall k :: 0 <= k < |ws| ==> c !in ws[k]
    ensures SplitOn(Join(ws, [c]), c) == ws
    decreases |ws|
  {
    if |ws| > 1 {
      var tail := ws[1..];
      forall k | 0 <= k < |tail| ensures c !in tail[k] {
        assert tail[k] == ws[k + 1];
      }
      SplitOnJoin(tail, c);
      JoinCons(ws, [c]);
      SplitOnCons(ws[0], c, Join(tail, [c]), tail);
      assert [ws[0]] + tail == ws;
    }
  }

  /** The first piece is the text before the first separator. */
  lemma SplitOnFirst(s: string, c: char)
    ensures SplitOn(s, c)[0] == (match IndexOf(s, c) case None => s case Some(n) => s[..n])
  {
  }

  // ---------------------------------------------------------------------------
  // Substrings

  /** Python `sub in s`, JavaScript `s.includes(sub)`. */
  predicate Contains(s: string, sub: string)
    decreases |s|
  {
    HasPrefix(s, sub) || (s != [] && Contains(s[1..], sub))
  }

  predicate HasPrefix(s: string, p: string) { |p| <= |s| && s[..|p|] == p }

  /** An occurrence at any position is found. */
  lemma {:induction false} ContainsAt(s: string, sub: string, i: nat)
    requires i + |sub| <= |s| && s[i..i + |sub|] == sub
    ensures Contains(s, sub)
    decreases i
  {
    if i > 0 {
      assert s[1..][i - 1..i - 1 + |sub|] == s[i..i + |sub|];
      ContainsAt(s[1..], sub, i - 1);
    }
  }

  /** A text can contain a pattern only if it contains the pattern's first
      character. */
  lemma {:induction false} NotContainsFirstChar(s: string, sub: string)
    requires sub != [] && sub[0] !in s
    ensures !Contains(s, sub)
    decreases |s|
  {
    if s != [] {
      assert sub[0] !in s[1..] by {
        forall k | 0 <= k < |s[1..]| ensures s[1..][k] != sub[0] { assert s[1..][k] == s[k + 1]; }
      }
      NotContainsFirstChar(s[1..], sub);
    }
  }

  /** Python `s.replace(pat, rep)`: every non-overlapping occurrence of `pat`,
      scanning from the left, is replaced by `rep`. */
  function Replace(s: string, pat: string, rep: string): (r: string)
    requires pat != []
    ensures !Contains(s, pat) ==> r == s
    ensures |rep| <= |pat| ==> |r| <= |s|
    decreases |s|
  {
    if |s| < |pat| then s
    else if s[..|pat|] == pat then rep + Replace(s[|pat|..], pat, rep)
    else [s[0]] + Replace(s[1..], pat, rep)
  }

  /** What the replacement produces: when `pat` does not start inside `a`,
      `a` is kept, the occurrence after it becomes `rep`, and the scan goes
      on after that occurrence. */
  lemma {:induction false} ReplaceFirst(a: string, pat: string, rep: string, b: string)
    requires pat != [] && !Contains(a + pat[..|pat| - 1], pat)
    ensures Replace(a + pat + b, pat, rep) == a + (rep + Replace(b, pat, rep))
    decreases |a|
  {
    var s := a + pat + b;
    if a == [] {
      assert s == pat + b && s[..|pat|] == pat && s[|pat|..] == b;
    } else {
      var x := a + pat[..|pat| - 1];
      assert x[1..] == a[1..] + pat[..|pat| - 1];
      assert s[..|pat|] != pat by {
        assert s[..|pat|] == x[..|pat|];
      }
      assert s[1..] == a[1..] + pat + b;
      ReplaceFirst(a[1..], pat, rep, b);
      ReplaceKeep(s, pat, rep);
      ConsAppend(a, rep + Replace(b, pat, rep));
    }
  }

  lemma ConsAppend<T>(a: seq<T>, r: seq<T>)
    requires a != []
    ensures a + r == [a[0]] + (a[1..] + r)
  {
  }

  lemma ReplaceKeep(s: string, pat: string, rep: string)
    requires pat != [] && |s| >= |pat| && s[..|pat|] != pat
    ensures Replace(s, pat, rep) == [s[0]] + Replace(s[1..], pat, rep)
  {
  }

  // ---------------------------------------------------------------------------
  // Decimal numbers

  function DigitChar(d: nat): (c: char)
    requires d < 10
    ensures IsDigit(c)
  {
    (('0' as int) + d) as char
  }

  function DigitValue(c: char): (d: nat)
    requires IsDigit(c)
    ensures d < 10 && DigitChar(d) == c
  {
    (c as int) - ('0' as int)
  }

  /** Python `int(s)` / `str(n)` for a run of ASCII digits. */
  function DigitsValue(s: string): nat
    requires AllDigits(s)
  {
    if s == [] then 0 else DigitsValue(s[..|s| - 1]) * 10 + DigitValue(s[|s| - 1])
  }

  /** Python `str(n)`: the shortest decimal numeral of `n`. */
  function NatToString(n: nat): (r: string)
    ensures |r| >= 1 && AllDigits(r)
    ensures |r| > 1 ==> r[0] != '0'
  {
    if n < 10 then [DigitChar(n)] else NatToString(n / 10) + [DigitChar(n % 10)]
  }

  lemma {:induction false} DigitsValueOfNatToString(n: nat)
    ensures DigitsValue(NatToString(n)) == n
  {
    if n >= 10 {
      var s := NatToString(n);
      assert s[..|s| - 1] == NatToString(n / 10);
      DigitsValueOfNatToString(n / 10);
    }
  }

  lemma NatToStringInjective(a: nat, b: nat)
    requires NatToString(a) == NatToString(b)
    ensures a == b
  {
    DigitsValueOfNatToString(a);
    DigitsValueOfNatToString(b);
  }

  function Pow10(k: nat): (r: nat)
    ensures r >= 1
  {
    if k == 0 then 1 else 10 * Pow10(k - 1)
  }

  lemma {:induction false} NatToStringLength(n: nat, k: nat)
    requires n < Pow10(k) && k >= 1
    ensures |NatToString(n)| <= k
  {
    if n >= 10 {
      NatToStringLength(n / 10, k - 1);
    }
  }

  /** A numeral of `k` digits is below `10^k`. */
  lemma {:induction false} DigitsValueBound(s: string)
    requires AllDigits(s)
    ensures DigitsValue(s) < Pow10(|s|)
  {
    if s != [] {
      var s' := s[..|s| - 1];
      DigitsValueBound(s');
      var v, p := DigitsValue(s'), Pow10(|s'|);
      assert v + 1 <= p;
      assert v * 10 + 10 <= p * 10;
    }
  }

  function Zeros(k: nat): (r: string)
    ensures |r| == k && AllDigits(r)
    ensures forall i :: 0 <= i < k ==> r[i] == '0'
  {
    seq(k, i => '0')
  }

  /** Leading zeros do not change the value of a numeral. */
  lemma {:induction false} LeadingZerosValue(k: nat, s: string)
    requires AllDigits(s)
    ensures AllDigits(Zeros(k) + s) && DigitsValue(Zeros(k) + s) == DigitsValue(s)
    decreases |s|
  {
    if s == [] {
      assert Zeros(k) + s == Zeros(k);
      ZerosValue(k);
    } else {
      var s' := s[..|s| - 1];
      assert (Zeros(k) + s)[..|Zeros(k) + s| - 1] == Zeros(k) + s';
      LeadingZerosValue(k, s');
    }
  }

  lemma {:induction false} ZerosValue(k: nat)
    ensures DigitsValue(Zeros(k)) == 0
  {
    if k > 0 {
      assert Zeros(k)[..k - 1] == Zeros(k - 1);
      ZerosValue(k - 1);
    }
  }

  /** `n` written with at least `width` digits, padded with leading zeros
      (the `yyyy`, `MM`, `dd`, `HH`, `mm` format tokens). */
  function Pad(n: nat, width: nat): (r: string)
    ensures AllDigits(r) && |r| >= width
  {
    var s := NatToString(n);
    if |s| >= width then s else Zeros(width - |s|) + s
  }

  /** A padded numeral fits its width when the number does, and reads back. */
  lemma PadRoundTrip(n: nat, width: nat)
    requires width >= 1 && n < Pow10(width)
    ensures |Pad(n, width)| == width
    ensures DigitsValue(Pad(n, width)) == n
  {
    NatToStringLength(n, width);
    DigitsValueOfNatToString(n);
    var s := NatToString(n);
    if |s| < width {
      LeadingZerosValue(width - |s|, s);
      assert Pad(n, width) == Zeros(width - |s|) + s;
    } else {
      assert Pad(n, width) == s;
    }
  }

  /** Python `int(s)`, restricted to strings of ASCII digits; `None` for the
      strings `int` rejects. */
  function ParseNat(s: string): (r: Option<nat>)
    ensures r.Some? <==> IsDigitString(s)
  {
    if IsDigitString(s) then Some(DigitsValue(s)) else None
  }

  lemma ParseNatOfNatToString(n: nat)
    ensures ParseNat(NatToString(n)) == Some(n)
  {
    DigitsValueOfNatToString(n);
  }

  // ---------------------------------------------------------------------------
  // JavaScript `parseInt(s)` with the default radix

  /** Length of the leading run of digits. */
  function DigitRunLen(s: string): (n: nat)
    ensures n <= |s| && AllDigits(s[..n])
    ensures n < |s| ==> !IsDigit(s[n])
  {
    if s == [] || !IsDigit(s[0]) then 0 else 1 + DigitRunLen(s[1..])
  }

  /** `0`-`9`, `a`-`f` and `A`-`F`. */
  predicate IsHexDigit(c: char) { IsDigit(c) || 'a' <= c <= 'f' || 'A' <= c <= 'F' }

  predicate AllHexDigits(s: string) { forall i :: 0 <= i < |s| ==> IsHexDigit(s[i]) }

  function HexDigitValue(c: char): (d: nat)
    requires IsHexDigit(c)
    ensures d < 16
  {
    if IsDigit(c) then DigitValue(c)
    else if 'a' <= c <= 'f' then (c as int) - ('a' as int) + 10
    else (c as int) - ('A' as int) + 10
  }

  /** The value of a run of hexadecimal digits. */
  function HexValue(s: string): nat
    requires AllHexDigits(s)
  {
    if s == [] then 0 else HexValue(s[..|s| - 1]) * 16 + HexDigitValue(s[|s| - 1])
  }

  /** Length of the leading run of hexadecimal digits. */
  function HexRunLen(s: string): (n: nat)
    ensures n <= |s| && AllHexDigits(s[..n])
    ensures n < |s| ==> !IsHexDigit(s[n])
  {
    if s == [] || !IsHexDigit(s[0]) then 0 else 1 + HexRunLen(s[1..])
  }

  /** The text after an optional leading sign. */
  function Unsigned(t: string): string {
    if t != [] && (t[0] == '-' || t[0] == '+') then t[1..] else t
  }

  /** A `0x` or `0X` prefix, which selects radix 16. */
  predicate HexPrefixed(u: string) { |u| >= 2 && u[0] == '0' && (u[1] == 'x' || u[1] == 'X') }

  /** The number an unsigned text starts with: after a `0x` or `0X` prefix
      the longest run of hexadecimal digits, otherwise the longest run of
      decimal digits; `None` when no digit of the radix comes first. */
  function LeadingValue(u: string): (r: Option<nat>)
    ensures r.Some? <==> if HexPrefixed(u) then |u| > 2 && IsHexDigit(u[2]) else u != [] && IsDigit(u[0])
  {
    if HexPrefixed(u) then
      var n := HexRunLen(u[2..]);
      if n == 0 then None else Some(HexValue(u[2..][..n]))
    else
      var n := DigitRunLen(u);
      if n == 0 then None else Some(DigitsValue(u[..n]))
  }

  /** `parseInt(s)`: blanks are skipped, an optional sign is read, then the
      number that follows in radix 16 after `0x` or `0X` and in radix 10
      otherwise; `None` stands for `NaN`, the result when no digit of the
      radix follows. */
  function JsParseInt(s: string): (r: Option<int>)
    ensures r.Some? <==> (var u := Unsigned(TrimStart(s));
                          if HexPrefixed(u) then |u| > 2 && IsHexDigit(u[2]) else u != [] && IsDigit(u[0]))
  {
    var t := TrimStart(s);
    match LeadingValue(Unsigned(t))
    case None => None
    case Some(v) => Some(if t != [] && t[0] == '-' then -(v as int) else v)
  }

  /** `parseInt` reads back a plain numeral; after "0" only an "x" or "X"
      would change the radix. */
  lemma JsParseIntOfNatToString(n: nat, rest: string)
    requires rest == [] || (!IsDigit(rest[0]) && !(n == 0 && (rest[0] == 'x' || rest[0] == 'X')))
    ensures JsParseInt(NatToString(n) + rest) == Some(n)
  {
    var s := NatToString(n);
    var t := s + rest;
    assert t[0] == s[0] && IsDigit(s[0]) && !IsSpace(t[0]) && t[0] != '-' && t[0] != '+';
    assert SpaceRunLen(t) == 0;
    assert TrimStart(t) == t;
    assert !HexPrefixed(t) by {
      if |s| > 1 {
        assert t[1] == s[1] && IsDigit(s[1]);
      } else if |t| >= 2 && t[0] == '0' {
        assert n == 0 && t[1] == rest[0];
      }
    }
    DigitRunAppend(s, rest);
    assert (s + rest)[..|s|] == s;
    DigitsValueOfNatToString(n);
  }

  /** `parseInt` of `0x`, hexadecimal digits and anything else: the digits'
      value, negated after a minus sign. */
  lemma JsParseIntOfHex(sign: string, x: char, h: string, rest: string)
    requires sign == [] || sign == "-" || sign == "+"
    requires x == 'x' || x == 'X'
    requires h != [] && AllHexDigits(h) && (rest == [] || !IsHexDigit(rest[0]))
    ensures JsParseInt(sign + (['0', x] + h + rest)) == Some(if sign == "-" then -(HexValue(h) as int) else HexValue(h))
  {
    LeadingValueOfHex(x, h, rest);
    SignedValue(sign, ['0', x] + h + rest, HexValue(h));
  }

  /** With no hexadecimal digit after `0x` the result is `NaN`, although a
      `0` was read. */
  lemma JsParseIntOfBareHexPrefix(sign: string, x: char, rest: string)
    requires sign == [] || sign == "-" || sign == "+"
    requires x == 'x' || x == 'X'
    requires rest == [] || !IsHexDigit(rest[0])
    ensures JsParseInt(sign + (['0', x] + rest)).None?
  {
    assert ['0', x] + rest == ['0', x] + [] + rest;
    LeadingValueOfHex(x, [], rest);
    SignedText(sign, ['0', x] + rest);
  }

  lemma SignedValue(sign: string, u: string, v: nat)
    requires sign == [] || sign == "-" || sign == "+"
    requires u != [] && u[0] == '0' && LeadingValue(u) == Some(v)
    ensures JsParseInt(sign + u) == Some(if sign == "-" then -(v as int) else v)
  {
    SignedText(sign, u);
  }

  /** After a sign or none, a text starting with `0` is read as its
      leading number, negated after a minus sign. */
  lemma SignedText(sign: string, u: string)
    requires sign == [] || sign == "-" || sign == "+"
    requires u != [] && u[0] == '0'
    ensures JsParseInt(sign + u).None? <==> LeadingValue(u).None?
    ensures LeadingValue(u).Some? ==>
              JsParseInt(sign + u) == Some(if sign == "-" then -(LeadingValue(u).value as int) else LeadingValue(u).value)
  {
    var t := sign + u;
    assert TrimStart(t) == t by {
      assert !IsSpace(t[0]);
      assert SpaceRunLen(t) == 0;
    }
    assert Unsigned(t) == u by {
      if sign != [] { assert t[1..] == u; } else { assert t == u; }
    }
    assert t[0] == '-' <==> sign == "-";
  }

  lemma LeadingValueOfHex(x: char, h: string, rest: string)
    requires x == 'x' || x == 'X'
    requires AllHexDigits(h) && (rest == [] || !IsHexDigit(rest[0]))
    ensures LeadingValue(['0', x] + h + rest) == if h == [] then None else Some(HexValue(h))
  {
    var u := ['0', x] + h + rest;
    assert u[2..] == h + rest;
    HexRunAppend(h, rest);
    assert (h + rest)[..|h|] == h;
  }

  lemma {:induction false} HexRunAppend(a: string, b: string)
    requires AllHexDigits(a) && (b == [] || !IsHexDigit(b[0]))
    ensures HexRunLen(a + b) == |a|
    decreases |a|
  {
    if a == [] {
      assert a + b == b;
    } else {
      assert (a + b)[1..] == a[1..] + b;
      HexRunAppend(a[1..], b);
    }
  }

  lemma {:induction false} DigitRunAppend(a: string, b: string)
    requires AllDigits(a) && (b == [] || !IsDigit(b[0]))
    ensures DigitRunLen(a + b) == |a|
    decreases |a|
  {
    if a == [] {
      assert a + b == b;
    } else {
      assert (a + b)[1..] == a[1..] + b;
      DigitRunAppend(a[1..], b);
    }
  }

  // ---------------------------------------------------------------------------
  // Stable sorting by an integer key (Python's `list.sort(key=...)` and
  // JavaScript's `Array.prototype.sort`, both stable)

  predicate SortedByKey<T>(s: seq<T>, key: T -> int) {
    forall i, j :: 0 <= i < j < |s| ==> key(s[i]) <= key(s[j])
  }

  /** `x` placed after every element of `s` whose key is not larger. */
  function InsertByKey<T>(x: T, s: seq<T>, key: T -> int): seq<T>
  {
    if s == [] then [x]
    else if key(x) < key(s[0]) then [x] + s
    else [s[0]] + InsertByKey(x, s[1..], key)
  }

  /** Insertion sort: the stable sort of `s` by `key`. */
  function SortByKey<T>(s: seq<T>, key: T -> int): seq<T>
  {
    if s == [] then []
    else InsertByKey(s[|s| - 1], SortByKey(s[..|s| - 1], key), key)
  }

  /** Inserting keeps the elements and adds `x`. */
  lemma {:induction false} InsertByKeyKeeps<T>(x: T, s: seq<T>, key: T -> int)
    ensures multiset(InsertByKey(x, s, key)) == multiset(s) + multiset{x}
  {
    if s != [] && key(s[0]) <= key(x) {
      InsertByKeyKeeps(x, s[1..], key);
      assert s == [s[0]] + s[1..];
    }
  }

  /** An element whose key is at most every key of a sorted sequence can
      go in front of it. */
  lemma SortedCons<T>(h: T, t: seq<T>, key: T -> int)
    requires SortedByKey(t, key) && forall k :: 0 <= k < |t| ==> key(h) <= key(t[k])
    ensures SortedByKey([h] + t, key)
  {
    forall i, j | 0 <= i < j < |[h] + t| ensures key(([h] + t)[i]) <= key(([h] + t)[j]) {
      if i > 0 { assert ([h] + t)[i] == t[i - 1]; }
      assert ([h] + t)[j] == t[j - 1];
    }
  }

  /** Inserting into a sorted sequence keeps it sorted. */
  lemma {:induction false} InsertByKeySorted<T>(x: T, s: seq<T>, key: T -> int)
    requires SortedByKey(s, key)
    ensures SortedByKey(InsertByKey(x, s, key), key)
  {
    if s == [] {
    } else if key(x) < key(s[0]) {
      SortedCons(x, s, key);
    } else {
      var t := InsertByKey(x, s[1..], key);
      assert SortedByKey(s[1..], key);
      InsertByKeySorted(x, s[1..], key);
      InsertByKeyKeeps(x, s[1..], key);
      forall k | 0 <= k < |t| ensures key(s[0]) <= key(t[k]) {
        assert t[k] in multiset(t);
        if t[k] != x {
          assert t[k] in multiset(s[1..]);
          var j :| 0 <= j < |s[1..]| && s[1..][j] == t[k];
          assert s[j + 1] == t[k];
        }
      }
      SortedCons(s[0], t, key);
    }
  }

  /** The sort is a permutation of its input, in ascending order of `key`. */
  lemma {:induction false} SortByKeySpec<T>(s: seq<T>, key: T -> int)
    ensures |SortByKey(s, key)| == |s|
    ensures multiset(SortByKey(s, key)) == multiset(s)
    ensures SortedByKey(SortByKey(s, key), key)
  {
    if s != [] {
      var p, x := s[..|s| - 1], s[|s| - 1];
      SortByKeySpec(p, key);
      InsertByKeyKeeps(x, SortByKey(p, key), key);
      InsertByKeySorted(x, SortByKey(p, key), key);
      assert s == p + [x];
      assert |multiset(SortByKey(s, key))| == |multiset(s)|;
    }
  }

  lemma {:induction false} InsertAfterAll<T>(x: T, s: seq<T>, key: T -> int)
    requires forall k :: 0 <= k < |s| ==> key(s[k]) <= key(x)
    ensures InsertByKey(x, s, key) == s + [x]
  {
    if s != [] {
      InsertAfterAll(x, s[1..], key);
      assert [s[0]] + (s[1..] + [x]) == s + [x];
    }
  }

  /** Sorting a sequence that is already in order leaves it as it is; in
      particular sorting twice is sorting once. */
  lemma {:induction false} SortSorted<T>(s: seq<T>, key: T -> int)
    requires SortedByKey(s, key)
    ensures SortByKey(s, key) == s
  {
    if s != [] {
      var p, x := s[..|s| - 1], s[|s| - 1];
      assert SortedByKey(p, key);
      SortSorted(p, key);
      assert forall k :: 0 <= k < |p| ==> key(p[k]) <= key(x) by {
        forall k | 0 <= k < |p| ensures key(p[k]) <= key(x) { assert p[k] == s[k]; }
      }
      InsertAfterAll(x, p, key);
      assert p + [x] == s;
    }
  }

  // ---------------------------------------------------------------------------
  // First match in a sequence (a `for` loop that returns on the first hit)

  /** The value `f` gives on the first element on which it gives one. */
  function FirstHit<T, U>(s: seq<T>, f: T -> Option<U>): Option<U>
  {
    if s == [] then None
    else if f(s[0]).Some? then f(s[0])
    else FirstHit(s[1..], f)
  }

  /** `FirstHit` is `None` exactly when no element is a hit, and otherwise
      the value of the earliest hit. */
  lemma {:induction false} FirstHitSpec<T, U>(s: seq<T>, f: T -> Option<U>)
    ensures FirstHit(s, f).None? <==> forall k :: 0 <= k < |s| ==> f(s[k]).None?
    ensures FirstHit(s, f).Some? ==>
              exists k :: 0 <= k < |s| && f(s[k]) == FirstHit(s, f) &&
                          forall j :: 0 <= j < k ==> f(s[j]).None?
  {
    if s != [] {
      FirstHitSpec(s[1..], f);
      assert forall k :: 0 <= k < |s[1..]| ==> s[1..][k] == s[k + 1];
      if f(s[0]).None? && FirstHit(s, f).Some? {
        var k :| 0 <= k < |s[1..]| && f(s[1..][k]) == FirstHit(s, f) &&
                 forall j :: 0 <= j < k ==> f(s[1..][j]).None?;
        assert f(s[k + 1]) == FirstHit(s, f);
        assert forall j :: 0 <= j < k + 1 ==> f(s[j]).None? by {
          forall j | 0 <= j < k + 1 ensures f(s[j]).None? {
            if j > 0 { assert s[j] == s[1..][j - 1]; }
          }
        }
      }
    }
  }

  /** Skipping a prefix in which nothing is a hit does not change the result. */
  lemma FirstHitStep<T, U>(s: seq<T>, i: nat, f: T -> Option<U>)
    requires i < |s| && f(s[i]).None?
    ensures FirstHit(s[i..], f) == FirstHit(s[i + 1..], f)
  {
    assert s[i..][1..] == s[i + 1..];
  }

  // ---------------------------------------------------------------------------
  // Primary keys

  /** The key a table gives a new row: one more than the largest key in
      use, so larger than every key in the table. */
  function FreshId<T>(s: seq<T>, id: T -> int): (r: int)
    ensures r >= 1 && forall k :: 0 <= k < |s| ==> id(s[k]) < r
  {
    if s == [] then 1
    else
      var rest := FreshId(s[..|s| - 1], id);
      assert forall k :: 0 <= k < |s| - 1 ==> s[..|s| - 1][k] == s[k];
      var last := id(s[|s| - 1]) + 1;
      if last > rest then last else rest
  }

  // ---------------------------------------------------------------------------
  // List comprehensions with a condition

  /** `[x for x in s if p(x)]`. */
  function Filter<T>(s: seq<T>, p: T -> bool): (r: seq<T>)
    ensures |r| <= |s|
  {
    if s == [] then [] else (if p(s[0]) then [s[0]] else []) + Filter(s[1..], p)
  }

  /** Sequences with the same multiset have the same members. */
  lemma SameMembers<T>(a: seq<T>, b: seq<T>)
    requires multiset(a) == multiset(b)
    ensures forall e :: e in a <==> e in b
  {
    forall e ensures e in a <==> e in b {
      assert e in a <==> e in multiset(a);
      assert e in b <==> e in multiset(b);
    }
  }

  /** Filtering from `i` on: the element at `i` when it is kept, then the rest. */
  lemma FilterStep<T>(s: seq<T>, i: nat, p: T -> bool)
    requires i < |s|
    ensures Filter(s[i..], p) == (if p(s[i]) then [s[i]] else []) + Filter(s[i + 1..], p)
  {
    assert s[i..][1..] == s[i + 1..];
  }

  /** The comprehension keeps exactly the elements that satisfy `p`. */
  lemma {:induction false} FilterSpec<T>(s: seq<T>, p: T -> bool)
    ensures forall x :: x in Filter(s, p) <==> x in s && p(x)
  {
    if s != [] {
      FilterSpec(s[1..], p);
      assert s == [s[0]] + s[1..];
    }
  }

  /** `[x for x, l in zip(xs, ls) if p(l)]`: the elements whose paired
      label satisfies `p`; `zip` stops at the shorter sequence. */
  function Picked<T, L>(xs: seq<T>, ls: seq<L>, p: L -> bool): (r: seq<T>)
    ensures |r| <= |xs|
    decreases |xs|
  {
    if xs == [] || ls == [] then []
    else (if p(ls[0]) then [xs[0]] else []) + Picked(xs[1..], ls[1..], p)
  }

  /** An element is picked exactly when some position holding it is paired
      with a label that satisfies `p`. */
  lemma {:induction false} PickedSpec<T, L>(xs: seq<T>, ls: seq<L>, p: L -> bool)
    ensures forall x :: x in Picked(xs, ls, p) <==>
              exists k :: 0 <= k < |xs| && k < |ls| && p(ls[k]) && xs[k] == x
    decreases |xs|
  {
    if xs != [] && ls != [] {
      var t, u := xs[1..], ls[1..];
      PickedSpec(t, u, p);
      forall x ensures x in Picked(xs, ls, p) <==>
                       exists k :: 0 <= k < |xs| && k < |ls| && p(ls[k]) && xs[k] == x {
        if exists k :: 0 <= k < |xs| && k < |ls| && p(ls[k]) && xs[k] == x {
          var k :| 0 <= k < |xs| && k < |ls| && p(ls[k]) && xs[k] == x;
          if k > 0 { assert t[k - 1] == x && p(u[k - 1]); }
        }
        if x in Picked(t, u, p) {
          var k :| 0 <= k < |t| && k < |u| && p(u[k]) && t[k] == x;
          assert xs[k + 1] == x && p(ls[k + 1]);
        }
      }
    }
  }

  // ---------------------------------------------------------------------------
  // Order and multiplicity of the comprehensions

  /** `a` is `b` with some elements left out and the others in their order. */
  predicate Subsequence<T(==)>(a: seq<T>, b: seq<T>)
    decreases |b|
  {
    if b == [] then a == []
    else Subsequence(a, b[1..]) || (a != [] && a[0] == b[0] && Subsequence(a[1..], b[1..]))
  }

  lemma {:induction false} SubsequenceTransitive<T>(a: seq<T>, b: seq<T>, c: seq<T>)
    requires Subsequence(a, b) && Subsequence(b, c)
    ensures Subsequence(a, c)
    decreases |c|
  {
    if c != [] {
      if Subsequence(b, c[1..]) {
        SubsequenceTransitive(a, b, c[1..]);
      } else if Subsequence(a, b[1..]) {
        SubsequenceTransitive(a, b[1..], c[1..]);
      } else {
        SubsequenceTransitive(a[1..], b[1..], c[1..]);
      }
    }
  }

  lemma {:induction false} EmptySubsequence<T>(b: seq<T>)
    ensures Subsequence([], b)
    decreases |b|
  {
    if b != [] {
      EmptySubsequence(b[1..]);
    }
  }

  lemma {:induction false} PrefixSubsequence<T>(a: seq<T>, n: nat)
    requires n <= |a|
    ensures Subsequence(a[..n], a)
    decreases |a|
  {
    if n == 0 {
      EmptySubsequence(a);
    } else {
      PrefixSubsequence(a[1..], n - 1);
      assert a[..n][1..] == a[1..][..n - 1];
    }
  }

  /** A slice is a subsequence of the whole. */
  lemma {:induction false} SliceSubsequence<T>(a: seq<T>, i: nat, j: nat)
    requires i <= j <= |a|
    ensures Subsequence(a[i..j], a)
    decreases i
  {
    if i == 0 {
      PrefixSubsequence(a, j);
    } else {
      SliceSubsequence(a[1..], i - 1, j - 1);
      assert a[1..][i - 1..j - 1] == a[i..j];
    }
  }

  /** The comprehension keeps its elements in their order. */
  lemma {:induction false} FilterSubsequence<T>(s: seq<T>, p: T -> bool)
    ensures Subsequence(Filter(s, p), s)
  {
    if s != [] {
      var rest := Filter(s[1..], p);
      FilterSubsequence(s[1..], p);
      if p(s[0]) {
        assert Filter(s, p) == [s[0]] + rest;
        assert Filter(s, p)[1..] == rest;
      } else {
        assert Filter(s, p) == rest;
      }
    }
  }

  /** Filtering a concatenation filters each part. */
  lemma {:induction false} FilterConcat<T>(a: seq<T>, b: seq<T>, p: T -> bool)
    ensures Filter(a + b, p) == Filter(a, p) + Filter(b, p)
    decreases |a|
  {
    if a == [] {
      assert a + b == b;
    } else {
      var head := if p(a[0]) then [a[0]] else [];
      FilterConcat(a[1..], b, p);
      assert (a + b)[1..] == a[1..] + b;
      assert Filter(a + b, p) == head + Filter(a[1..] + b, p);
      assert Filter(a, p) == head + Filter(a[1..], p);
    }
  }

  /** A kept element occurs in the result as often as in the input, any
      other element not at all. */
  lemma {:induction false} FilterCount<T>(s: seq<T>, p: T -> bool, x: T)
    ensures multiset(Filter(s, p))[x] == if p(x) then multiset(s)[x] else 0
  {
    if s != [] {
      FilterCount(s[1..], p, x);
      var rest := Filter(s[1..], p);
      assert s == [s[0]] + s[1..];
      assert multiset(s) == multiset{s[0]} + multiset(s[1..]);
      if p(s[0]) {
        assert Filter(s, p) == [s[0]] + rest;
        assert multiset(Filter(s, p)) == multiset{s[0]} + multiset(rest);
      } else {
        assert Filter(s, p) == rest;
      }
    }
  }

  /** The picked elements keep their order. */
  lemma {:induction false} PickedSubsequence<T, L>(xs: seq<T>, ls: seq<L>, p: L -> bool)
    ensures Subsequence(Picked(xs, ls, p), xs)
    decreases |xs|
  {
    if xs != [] {
      if ls == [] {
        EmptySubsequence(xs[1..]);
      } else {
        var rest := Picked(xs[1..], ls[1..], p);
        PickedSubsequence(xs[1..], ls[1..], p);
        if p(ls[0]) {
          assert Picked(xs, ls, p) == [xs[0]] + rest;
          assert Picked(xs, ls, p)[1..] == rest;
        } else {
          assert Picked(xs, ls, p) == rest;
        }
      }
    }
  }

  /** Picking from two concatenations whose first parts pair up picks from
      each pair of parts. */
  lemma {:induction false} PickedConcat<T, L>(a: seq<T>, b: seq<T>, la: seq<L>, lb: seq<L>, p: L -> bool)
    requires |a| == |la|
    ensures Picked(a + b, la + lb, p) == Picked(a, la, p) + Picked(b, lb, p)
    decreases |a|
  {
    if a == [] {
      assert a + b == b && la + lb == lb;
    } else {
      assert (a + b)[0] == a[0] && (a + b)[1..] == a[1..] + b;
      assert (la + lb)[0] == la[0] && (la + lb)[1..] == la[1..] + lb;
      PickedConcat(a[1..], b, la[1..], lb, p);
    }
  }

  /** The positions of `x` whose label satisfies `p`. */
  function PickedAt<T(==), L>(xs: seq<T>, ls: seq<L>, p: L -> bool, x: T): set<nat> {
    set k: nat | k < |xs| && k < |ls| && xs[k] == x && p(ls[k])
  }

  function Shift(s: set<nat>): set<nat> { set k | k in s :: k + 1 }

  lemma ShiftedCard(s: set<nat>)
    ensures |Shift(s)| == |s|
  {
    if s != {} {
      var m :| m in s;
      var t := s - {m};
      ShiftedCard(t);
      assert Shift(s) == Shift(t) + {m + 1} by {
        forall y | y in Shift(s) ensures y in Shift(t) + {m + 1} {
          var k :| k in s && y == k + 1;
          if k != m { assert k in t; }
        }
        forall y | y in Shift(t) + {m + 1} ensures y in Shift(s) {
          if y == m + 1 {
            assert m in s;
          } else {
            var k :| k in t && y == k + 1;
            assert k in s;
          }
        }
      }
      assert m + 1 !in Shift(t) by {
        forall k | k in t ensures k + 1 != m + 1 { }
      }
    }
  }

  /** The positions in a pairing with a head: the head's, then those of
      the rest moved up by one. */
  lemma PickedAtStep<T, L>(xs: seq<T>, ls: seq<L>, p: L -> bool, x: T)
    requires xs != [] && ls != []
    ensures PickedAt(xs, ls, p, x) ==
              (if xs[0] == x && p(ls[0]) then {0} else {}) + Shift(PickedAt(xs[1..], ls[1..], p, x))
    ensures 0 !in Shift(PickedAt(xs[1..], ls[1..], p, x))
  {
    var rest := PickedAt(xs[1..], ls[1..], p, x);
    forall k: nat | k in PickedAt(xs, ls, p, x) && k > 0 ensures k in Shift(rest) {
      assert k - 1 in rest;
    }
  }

  /** Each element is picked once for each position holding it whose label
      satisfies `p`. */
  lemma {:induction false} PickedCount<T, L>(xs: seq<T>, ls: seq<L>, p: L -> bool, x: T)
    ensures multiset(Picked(xs, ls, p))[x] == |PickedAt(xs, ls, p, x)|
    decreases |xs|
  {
    if xs == [] || ls == [] {
      assert PickedAt(xs, ls, p, x) == {};
    } else {
      var t, u := xs[1..], ls[1..];
      PickedCount(t, u, p, x);
      PickedAtStep(xs, ls, p, x);
      ShiftedCard(PickedAt(t, u, p, x));
      var head: seq<T> := if p(ls[0]) then [xs[0]] else [];
      assert Picked(xs, ls, p) == head + Picked(t, u, p);
      assert multiset(Picked(xs, ls, p))[x] == multiset(head)[x] + multiset(Picked(t, u, p))[x];
    }
  }
}
