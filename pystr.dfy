/** The Python `str` operations the scraper relies on (`strip`, `lstrip`,
    `split`, `join`, `replace`, `endswith` and `int(...)` on a string),
    with the meaning CPython gives them. */
module PyStr {
  import opened Wrappers

  /** `c.isspace()`: the characters CPython treats as whitespace. */
  predicate IsSpace(c: char)
  {
    || c == ' ' || c == '\t' || c == '\n' || c == '\r' || c == '\U{B}' || c == '\U{C}'
    || ('\U{1C}' <= c <= '\U{1F}') || c == '\U{85}' || c == '\U{A0}' || c == '\U{1680}'
    || ('\U{2000}' <= c <= '\U{200A}') || c == '\U{2028}' || c == '\U{2029}'
    || c == '\U{202F}' || c == '\U{205F}' || c == '\U{3000}'
  }

  /** The character set of `strip(" ")`: the space character alone. */
  predicate IsBlank(c: char)
  {
    c == ' '
  }

  /** `s.lstrip(chars)`: drops the longest prefix whose characters satisfy `drop`. */
  function LStripBy(s: string, drop: char -> bool): (r: string)
    ensures |r| <= |s| && r == s[|s| - |r|..]
    ensures forall i :: 0 <= i < |s| - |r| ==> drop(s[i])
    ensures r == [] || !drop(r[0])
  {
    if s != [] && drop(s[0]) then LStripBy(s[1..], drop) else s
  }

  /** `s.rstrip(chars)`: drops the longest suffix whose characters satisfy `drop`. */
  function RStripBy(s: string, drop: char -> bool): (r: string)
    ensures |r| <= |s| && r == s[..|r|]
    ensures forall i :: |r| <= i < |s| ==> drop(s[i])
    ensures r == [] || !drop(r[|r| - 1])
  {
    if s != [] && drop(s[|s| - 1]) then RStripBy(s[..|s| - 1], drop) else s
  }

  /** Where `s.lstrip(chars)` starts in `s`. */
  function StripStart(s: string, drop: char -> bool): nat
  {
    |s| - |LStripBy(s, drop)|
  }

  /** `s.strip(chars)`: the slice of `s` left once both ends are cleared of
      characters satisfying `drop`; only such characters are removed. */
  function StripBy(s: string, drop: char -> bool): (r: string)
    ensures |r| <= |s|
    ensures r == [] || (!drop(r[0]) && !drop(r[|r| - 1]))
    ensures StripStart(s, drop) + |r| <= |s| && r == s[StripStart(s, drop)..StripStart(s, drop) + |r|]
    ensures forall k :: 0 <= k < StripStart(s, drop) ==> drop(s[k])
    ensures forall k :: StripStart(s, drop) + |r| <= k < |s| ==> drop(s[k])
  {
    var l := LStripBy(s, drop);
    var r := RStripBy(l, drop);
    assert r == [] || r[0] == l[0];
    var i := |s| - |l|;
    assert l == s[i..];
    assert r == l[..|r|];
    r
  }

  /** `s.lstrip()` */
  function LStrip(s: string): string
  {
    LStripBy(s, IsSpace)
  }

  /** `s.strip()` */
  function Strip(s: string): string
  {
    StripBy(s, IsSpace)
  }

  /** A string that starts and ends with a kept character is its own `strip`. */
  lemma StripKeeps(s: string, drop: char -> bool)
    requires s == [] || (!drop(s[0]) && !drop(s[|s| - 1]))
    ensures StripBy(s, drop) == s
  {
  }

  /** A trailing dropped character is what `strip` removes from such a string. */
  lemma StripTrailing(s: string, c: char, drop: char -> bool)
    requires drop(c)
    requires s != [] && !drop(s[0]) && !drop(s[|s| - 1])
    ensures StripBy(s + [c], drop) == s
  {
    var t := s + [c];
    assert t[0] == s[0];
    assert LStripBy(t, drop) == t;
    assert t[..|t| - 1] == s;
    assert RStripBy(t, drop) == RStripBy(s, drop);
    assert RStripBy(s, drop) == s;
  }

  /** `s.endswith(suffix)` */
  predicate EndsWith(s: string, suffix: string)
  {
    |suffix| <= |s| && s[|s| - |suffix|..] == suffix
  }

  /** Text followed by the suffix ends with it. */
  lemma EndsWithConcat(p: string, suffix: string)
    ensures EndsWith(p + suffix, suffix)
  {
    assert (p + suffix)[|p|..] == suffix;
  }

  /** Text that ends with the suffix is some text followed by it. */
  lemma EndsWithSplit(s: string, suffix: string)
    requires EndsWith(s, suffix)
    ensures s == s[..|s| - |suffix|] + suffix
  {
  }

  /** `s.split("\n")[0]`: everything before the first newline. */
  function FirstLine(s: string): (r: string)
    ensures r <= s
    ensures '\n' !in r
    ensures |r| < |s| ==> s[|r|] == '\n'
  {
    if s == [] || s[0] == '\n' then [] else [s[0]] + FirstLine(s[1..])
  }

  /** `s.split(sep)` for a one-character separator. */
  function Split(s: string, sep: char): (parts: seq<string>)
    ensures |parts| >= 1
    ensures forall i :: 0 <= i < |parts| ==> sep !in parts[i]
  {
    if s == [] then [""]
    else
      var rest := Split(s[1..], sep);
      if s[0] == sep then [""] + rest
      else [[s[0]] + rest[0]] + rest[1..]
  }

  /** `sep.join(parts)` for a one-character separator. */
  function Join(parts: seq<string>, sep: char): string
  {
    if parts == [] then ""
    else if |parts| == 1 then parts[0]
    else parts[0] + [sep] + Join(parts[1..], sep)
  }

  /** Joining the pieces of a split gives the string back. */
  lemma {:induction false} JoinSplit(s: string, sep: char)
    ensures Join(Split(s, sep), sep) == s
  {
    if s != [] {
      JoinSplit(s[1..], sep);
      var rest := Split(s[1..], sep);
      if s[0] == sep {
        assert Split(s, sep) == [""] + rest;
        assert Join([""] + rest, sep) == "" + [sep] + Join(rest, sep);
      } else if |rest| == 1 {
        assert Split(s, sep) == [[s[0]] + rest[0]];
      } else {
        var parts := [[s[0]] + rest[0]] + rest[1..];
        assert parts[1..] == rest[1..];
        assert Join(rest, sep) == rest[0] + [sep] + Join(rest[1..], sep);
      }
    }
  }

  /** A separator-free prefix before a separator becomes a piece of its own. */
  lemma {:induction false} SplitAfterPiece(a: string, b: string, sep: char)
    requires sep !in a
    ensures Split(a + [sep] + b, sep) == [a] + Split(b, sep)
  {
    if a != [] {
      SplitAfterPiece(a[1..], b, sep);
      assert (a + [sep] + b)[1..] == a[1..] + [sep] + b;
      assert (a + [sep] + b)[0] == a[0];
      assert [a[0]] + a[1..] == a;
    } else {
      assert a + [sep] + b == [sep] + b;
    }
  }

  /** A separator-free string splits into itself alone. */
  lemma {:induction false} SplitWhole(a: string, sep: char)
    requires sep !in a
    ensures Split(a, sep) == [a]
  {
    if a != [] {
      SplitWhole(a[1..], sep);
      assert [a[0]] + a[1..] == a;
    }
  }

  /** Splitting a join of separator-free pieces gives the pieces back. */
  lemma {:induction false} SplitJoin(parts: seq<string>, sep: char)
    requires |parts| >= 1
    requires forall i :: 0 <= i < |parts| ==> sep !in parts[i]
    ensures Split(Join(parts, sep), sep) == parts
  {
    if |parts| == 1 {
      SplitWhole(parts[0], sep);
    } else {
      SplitJoin(parts[1..], sep);
      SplitAfterPiece(parts[0], Join(parts[1..], sep), sep);
    }
  }

  /** `s.replace(pat, "")`: removes the non-overlapping occurrences of `pat`
      found scanning from the left. */
  function RemoveAll(s: string, pat: string): (r: string)
    requires pat != []
    ensures |r| <= |s|
    decreases |s|
  {
    if |s| < |pat| then s
    else if s[..|pat|] == pat then RemoveAll(s[|pat|..], pat)
    else [s[0]] + RemoveAll(s[1..], pat)
  }

  /** Text that cannot start an occurrence passes through `replace` unchanged. */
  lemma {:induction false} RemoveAllSkips(a: string, b: string, pat: string)
    requires pat != []
    requires pat[0] !in a
    ensures RemoveAll(a + b, pat) == a + RemoveAll(b, pat)
    decreases |a|
  {
    if a != [] {
      RemoveAllSkips(a[1..], b, pat);
      assert (a + b)[1..] == a[1..] + b;
      assert (a + b)[0] == a[0];
      assert [a[0]] + (a[1..] + RemoveAll(b, pat)) == a + RemoveAll(b, pat);
      if |a + b| >= |pat| {
        assert (a + b)[..|pat|][0] == a[0];
      }
    } else {
      assert a + b == b;
    }
  }

  /** An occurrence at the front is removed in full. */
  lemma {:induction false} RemoveAllFront(b: string, pat: string)
    requires pat != []
    ensures RemoveAll(pat + b, pat) == RemoveAll(b, pat)
  {
    assert (pat + b)[..|pat|] == pat;
    assert (pat + b)[|pat|..] == b;
  }

  /** `pat` occurs in `s` at index `i`. */
  predicate OccursAt(s: string, pat: string, i: int)
  {
    0 <= i && i + |pat| <= |s| && s[i..i + |pat|] == pat
  }

  /** Text with no occurrence of `pat` passes through `replace` unchanged. */
  lemma {:induction false} RemoveAllAbsent(s: string, pat: string)
    requires pat != []
    requires forall i :: !OccursAt(s, pat, i)
    ensures RemoveAll(s, pat) == s
    decreases |s|
  {
    if |s| >= |pat| {
      assert !OccursAt(s, pat, 0);
      var t := s[1..];
      forall i ensures !OccursAt(t, pat, i) {
        if 0 <= i && i + |pat| <= |t| {
          assert !OccursAt(s, pat, i + 1);
          assert t[i..i + |pat|] == s[i + 1..i + 1 + |pat|];
        }
      }
      RemoveAllAbsent(t, pat);
      assert [s[0]] + t == s;
    }
  }

  predicate IsDigit(c: char)
  {
    '0' <= c <= '9'
  }

  /** One or more ASCII decimal digits. */
  predicate IsDigits(d: string)
  {
    |d| > 0 && forall i :: 0 <= i < |d| ==> IsDigit(d[i])
  }

  /** The number a string of decimal digits denotes. */
  function DigitsValue(d: string): nat
    requires forall i :: 0 <= i < |d| ==> IsDigit(d[i])
  {
    if d == [] then 0
    else
      assert IsDigit(d[|d| - 1]);
      10 * DigitsValue(d[..|d| - 1]) + (d[|d| - 1] as int - '0' as int)
  }

  /** The default limit on the digits of a decimal string `int` converts
      (`sys.get_int_max_str_digits()`); longer strings raise `ValueError`. */
  const MaxStrDigits := 4300

  /** Digits `int` converts: one or more, and no more than the limit. */
  predicate IsDecimal(d: string)
  {
    IsDigits(d) && |d| <= MaxStrDigits
  }

  /** What `int(s)` accepts once `s` is stripped: digits with an optional sign. */
  predicate IsIntLiteral(t: string)
  {
    IsDecimal(t) || (|t| > 1 && (t[0] == '-' || t[0] == '+') && IsDecimal(t[1..]))
  }

  /** The value of an integer literal, `None` when it is not one. */
  function ParseLiteral(t: string): (r: Option<int>)
    ensures r.Some? <==> IsIntLiteral(t)
  {
    if IsDecimal(t) then Some(DigitsValue(t))
    else if |t| > 1 && t[0] == '-' && IsDecimal(t[1..]) then Some(0 - DigitsValue(t[1..]) as int)
    else if |t| > 1 && t[0] == '+' && IsDecimal(t[1..]) then Some(DigitsValue(t[1..]))
    else None
  }

  /** The whitespace `int` skips around a literal: `isspace` characters
      except the ASCII separators U+001C to U+001F, which `int` keeps and
      then rejects. */
  predicate IsIntSpace(c: char)
  {
    IsSpace(c) && !('\U{1C}' <= c <= '\U{1F}')
  }

  /** `int(s)`, with `None` for the `ValueError` case: surrounding
      whitespace is ignored. */
  function ParseInt(s: string): (r: Option<int>)
    ensures r.Some? <==> IsIntLiteral(StripBy(s, IsIntSpace))
  {
    ParseLiteral(StripBy(s, IsIntSpace))
  }

  function DigitChar(k: nat): (c: char)
    requires k < 10
    ensures IsDigit(c)
  {
    ('0' as int + k) as char
  }

  /** `str(n)` for a natural number. */
  function ShowNat(n: nat): (d: string)
    ensures IsDigits(d)
  {
    if n < 10 then [DigitChar(n)] else ShowNat(n / 10) + [DigitChar(n % 10)]
  }

  /** `str(n)` for an integer. */
  function ShowInt(n: int): string
  {
    if n < 0 then "-" + ShowNat(-n) else ShowNat(n)
  }

  /** Reading back the digits of `str(n)` gives `n`. */
  lemma {:induction false} ShowNatValue(n: nat)
    ensures DigitsValue(ShowNat(n)) == n
  {
    if n >= 10 {
      ShowNatValue(n / 10);
      var d := ShowNat(n);
      assert d[..|d| - 1] == ShowNat(n / 10);
    }
  }

  /** A digit is not whitespace. */
  lemma DigitNotSpace(c: char)
    requires IsDigit(c)
    ensures !IsSpace(c) && !IsIntSpace(c)
  {
  }

  /** `int(str(n)) == n` for a natural number within the digit limit. */
  lemma {:induction false} ParseShowNat(n: nat)
    requires |ShowNat(n)| <= MaxStrDigits
    ensures ParseInt(ShowNat(n)) == Some(n)
  {
    var d := ShowNat(n);
    ShowNatValue(n);
    DigitNotSpace(d[0]);
    DigitNotSpace(d[|d| - 1]);
    StripKeeps(d, IsIntSpace);
  }

  /** `int(str(n))` raises beyond the digit limit. */
  lemma {:induction false} ParseShowNatTooLong(n: nat)
    requires |ShowNat(n)| > MaxStrDigits
    ensures ParseInt(ShowNat(n)) == None
  {
    var d := ShowNat(n);
    DigitNotSpace(d[0]);
    DigitNotSpace(d[|d| - 1]);
    StripKeeps(d, IsIntSpace);
    assert d[0] != '-' && d[0] != '+';
  }

  /** A unit separator after the digits is not skipped: `int` rejects it,
      although `strip` would remove it. */
  lemma {:induction false} ParseIntKeepsUnitSeparator(n: nat)
    ensures ParseInt(ShowNat(n) + "\U{1F}") == None
    ensures Strip(ShowNat(n) + "\U{1F}") == ShowNat(n)
  {
    var d := ShowNat(n);
    var s := d + "\U{1F}";
    DigitNotSpace(d[0]);
    DigitNotSpace(d[|d| - 1]);
    assert s[0] == d[0] && s[|s| - 1] == '\U{1F}';
    StripKeeps(s, IsIntSpace);
    assert !IsDigit(s[|s| - 1]);
    assert !IsDigits(s[1..]) by {
      assert s[1..][|s| - 2] == '\U{1F}';
    }
    StripTrailing(d, '\U{1F}', IsSpace);
  }

  lemma ParseLiteralNeg(t: string)
    requires |t| > 1 && t[0] == '-' && IsDecimal(t[1..])
    ensures ParseLiteral(t) == Some(0 - DigitsValue(t[1..]) as int)
  {
    assert !IsDigit(t[0]);
  }

  /** `int(str(n)) == n` for a negative number within the digit limit. */
  lemma {:induction false} ParseShowNeg(m: nat)
    requires m > 0 && |ShowNat(m)| <= MaxStrDigits
    ensures ParseInt("-" + ShowNat(m)) == Some(-(m as int))
  {
    var d := ShowNat(m);
    var s := "-" + d;
    assert s[0] == '-' && s[1..] == d;
    ShowNatValue(m);
    DigitNotSpace(d[|d| - 1]);
    assert s[|s| - 1] == d[|d| - 1];
    StripKeeps(s, IsIntSpace);
    ParseLiteralNeg(s);
  }

  /** The number of decimal digits of `str(n)`, leaving out the sign. */
  function DigitCount(n: int): nat
  {
    |ShowNat(if n < 0 then -n else n)|
  }

  /** `int(str(n)) == n` for an integer within the digit limit. */
  lemma ParseShow(n: int)
    requires DigitCount(n) <= MaxStrDigits
    ensures ParseInt(ShowInt(n)) == Some(n)
  {
    if n < 0 {
      var m: nat := -n;
      assert ShowInt(n) == "-" + ShowNat(m);
      ParseShowNeg(m);
    } else {
      assert ShowInt(n) == ShowNat(n);
      ParseShowNat(n);
    }
  }

  /** A hexadecimal digit, of either case, as Python reads it in a `\x` escape. */
  predicate IsHexDigit(c: char)
  {
    '0' <= c <= '9' || 'a' <= c <= 'f' || 'A' <= c <= 'F'
  }

  /** The value of a hexadecimal digit. */
  function HexValue(c: char): (r: nat)
    requires IsHexDigit(c)
    ensures r < 16
  {
    if c <= '9' then c as int - '0' as int
    else if c <= 'F' then c as int - 'A' as int + 10
    else c as int - 'a' as int + 10
  }

  /** A lower-case hexadecimal digit, the one `repr` writes. */
  function HexDigit(k: nat): (r: char)
    requires k < 16
    ensures IsHexDigit(r) && HexValue(r) == k
  {
    if k < 10 then ('0' as int + k) as char else ('a' as int + k - 10) as char
  }

  /** The characters `repr` writes as a `\xhh` escape: the ASCII and
      Latin-1 control characters, the no-break space and the soft hyphen. */
  predicate IsHexEscaped(c: char)
  {
    c < ' ' || ('\U{7F}' <= c <= '\U{A0}') || c == '\U{AD}'
  }

  /** How `repr` writes one character inside the given quotes. */
  function EscapeChar(c: char, quote: char): (r: string)
    ensures |r| >= 1
    ensures r[0] == c || r[0] == '\\'
  {
    if c == quote || c == '\\' then ['\\', c]
    else if c == '\t' then "\\t"
    else if c == '\n' then "\\n"
    else if c == '\r' then "\\r"
    else if IsHexEscaped(c) then ['\\', 'x', HexDigit(c as int / 16), HexDigit(c as int % 16)]
    else [c]
  }

  /** The characters of `s` as `repr` writes them inside the given quotes. */
  function Escape(s: string, quote: char): (r: string)
    ensures |r| >= |s|
  {
    if s == [] then "" else EscapeChar(s[0], quote) + Escape(s[1..], quote)
  }

  /** `repr(s)`: double quotes when `s` holds a single quote and no double
      quote, single quotes otherwise. */
  function StrRepr(s: string): (r: string)
    ensures |r| >= |s| + 2
    ensures r[0] == r[|r| - 1] && (r[0] == '\'' || r[0] == '"')
    ensures r[0] == '"' <==> '\'' in s && '"' !in s
  {
    var quote := if '\'' in s && '"' !in s then '"' else '\'';
    [quote] + Escape(s, quote) + [quote]
  }

  /** The items of `repr(ss)`, separated by ", ". */
  function ReprItems(ss: seq<string>): string
  {
    if ss == [] then ""
    else if |ss| == 1 then StrRepr(ss[0])
    else StrRepr(ss[0]) + ", " + ReprItems(ss[1..])
  }

  /** `repr(ss)` (and `f"{ss}"`) for a list of strings. */
  function ListRepr(ss: seq<string>): (r: string)
    ensures |r| >= 2 && r[0] == '[' && r[|r| - 1] == ']'
    ensures ss == [] <==> r == "[]"
  {
    "[" + ReprItems(ss) + "]"
  }

  /** A character `repr` writes as itself. */
  predicate IsPlain(c: char)
  {
    c != '\'' && c != '"' && c != '\\' && !IsHexEscaped(c) && c != '\t' && c != '\n' && c != '\r'
  }

  /** Text of plain characters is written as it is, between single quotes. */
  lemma {:induction false} EscapePlain(s: string, quote: char)
    requires forall i :: 0 <= i < |s| ==> IsPlain(s[i])
    requires quote == '\'' || quote == '"'
    ensures Escape(s, quote) == s
  {
    if s != [] {
      EscapePlain(s[1..], quote);
      assert [s[0]] + s[1..] == s;
    }
  }

  /** `repr` of plain text is the text between single quotes. */
  lemma StrReprPlain(s: string)
    requires forall i :: 0 <= i < |s| ==> IsPlain(s[i])
    ensures StrRepr(s) == "'" + s + "'"
  {
    EscapePlain(s, '\'');
  }

  /** A list of one plain string is written as the string in quotes
      between brackets. */
  lemma ListReprSingle(a: string)
    requires forall i :: 0 <= i < |a| ==> IsPlain(a[i])
    ensures ListRepr([a]) == "['" + a + "']"
  {
    StrReprPlain(a);
  }

  /** A list of plain strings is written item by item, each in single
      quotes, separated by ", ": `f"{['a', 'b']}"` gives `['a', 'b']`. */
  lemma {:induction false} ReprItemsPlain(a: string, ss: seq<string>)
    requires forall i :: 0 <= i < |a| ==> IsPlain(a[i])
    requires ss != []
    ensures ReprItems([a] + ss) == "'" + a + "', " + ReprItems(ss)
  {
    var all := [a] + ss;
    assert |all| > 1 && all[0] == a && all[1..] == ss;
    assert ReprItems(all) == StrRepr(a) + ", " + ReprItems(ss);
    StrReprPlain(a);
  }

  // ---------------------------------------------------------------------
  // Reading `repr` back, as Python's parser reads a string literal
  // ---------------------------------------------------------------------

  /** The character one escape sequence at the front of `t` denotes, and
      the length of the sequence; `None` for an escape `repr` never writes. */
  function ReadEscape(t: string): (r: Option<(char, nat)>)
    requires |t| >= 2 && t[0] == '\\'
    ensures r.Some? ==> 2 <= r.value.1 <= |t|
  {
    if t[1] == '\\' || t[1] == '\'' || t[1] == '"' then Some((t[1], 2))
    else if t[1] == 't' then Some(('\t', 2))
    else if t[1] == 'n' then Some(('\n', 2))
    else if t[1] == 'r' then Some(('\r', 2))
    else if t[1] == 'x' && |t| >= 4 && IsHexDigit(t[2]) && IsHexDigit(t[3]) then
      Some(((HexValue(t[2]) * 16 + HexValue(t[3])) as char, 4))
    else None
  }

  /** `c` put in front of the text a read produced. */
  function Prepend(c: char, read: Option<(string, string)>): Option<(string, string)>
  {
    if read.None? then None else Some(([c] + read.value.0, read.value.1))
  }

  /** Reads the body of a string literal up to its closing `quote`: the
      text the body denotes and what follows the quote, or `None` when the
      quote never comes or an escape is not one `repr` writes. */
  function ReadQuoted(t: string, quote: char): (r: Option<(string, string)>)
    ensures r.Some? ==> |r.value.1| < |t|
    decreases |t|
  {
    if t == [] then None
    else if t[0] == quote then Some(([], t[1..]))
    else if t[0] == '\\' then
      if |t| < 2 then None
      else
        var e := ReadEscape(t);
        if e.None? then None else Prepend(e.value.0, ReadQuoted(t[e.value.1..], quote))
    else Prepend(t[0], ReadQuoted(t[1..], quote))
  }

  /** Reads string literals separated by ", ", as between the brackets of a
      list display. */
  function ReadItems(t: string): Option<seq<string>>
    decreases |t|
  {
    if t == [] || (t[0] != '\'' && t[0] != '"') then None
    else
      var body := ReadQuoted(t[1..], t[0]);
      if body.None? then None
      else
        var rest := body.value.1;
        if rest == [] then Some([body.value.0])
        else if |rest| >= 2 && rest[..2] == ", " then
          var more := ReadItems(rest[2..]);
          if more.None? then None else Some([body.value.0] + more.value)
        else None
  }

  /** `ast.literal_eval` of a list display of strings. */
  function ReadList(t: string): Option<seq<string>>
  {
    if |t| >= 2 && t[0] == '[' && t[|t| - 1] == ']' then
      if t[1..|t| - 1] == [] then Some([]) else ReadItems(t[1..|t| - 1])
    else None
  }

  /** The escape `repr` writes for `c` reads back as `c`. */
  lemma EscapeCharRead(c: char, quote: char, u: string)
    requires quote == '\'' || quote == '"'
    ensures ReadQuoted(EscapeChar(c, quote) + u, quote) == Prepend(c, ReadQuoted(u, quote))
  {
    var t := EscapeChar(c, quote) + u;
    if c == quote || c == '\\' || c == '\t' || c == '\n' || c == '\r' {
      assert t[2..] == u;
    } else if IsHexEscaped(c) {
      var hi, lo := HexDigit(c as int / 16), HexDigit(c as int % 16);
      assert t[..4] == ['\\', 'x', hi, lo] && t[4..] == u;
      assert (HexValue(hi) * 16 + HexValue(lo)) as char == c;
    } else {
      assert t[1..] == u;
    }
  }

  /** The escaped text of `s`, closed by the quote, reads back as `s`
      followed by whatever comes after the quote. */
  lemma {:induction false} EscapeRead(s: string, quote: char, rest: string)
    requires quote == '\'' || quote == '"'
    ensures ReadQuoted(Escape(s, quote) + [quote] + rest, quote) == Some((s, rest))
    decreases |s|
  {
    if s == [] {
      assert Escape(s, quote) + [quote] + rest == [quote] + rest;
    } else {
      var tail := Escape(s[1..], quote) + [quote] + rest;
      assert Escape(s, quote) + [quote] + rest == EscapeChar(s[0], quote) + tail;
      EscapeCharRead(s[0], quote, tail);
      EscapeRead(s[1..], quote, rest);
      assert [s[0]] + s[1..] == s;
    }
  }

  /** `repr(s)` followed by more text reads back as `s` and that text. */
  lemma StrReprRead(s: string, rest: string)
    ensures var r := StrRepr(s);
      (r[0] == '\'' || r[0] == '"') && ReadQuoted(r[1..] + rest, r[0]) == Some((s, rest))
  {
    var r := StrRepr(s);
    var quote := r[0];
    assert r[1..] + rest == Escape(s, quote) + [quote] + rest;
    EscapeRead(s, quote, rest);
  }

  /** One literal at the front of `t`, then either the end or ", " and
      more literals. */
  lemma ReadItemsFront(t: string, s: string, tail: string)
    requires t != [] && (t[0] == '\'' || t[0] == '"')
    requires ReadQuoted(t[1..], t[0]) == Some((s, tail))
    ensures tail == [] ==> ReadItems(t) == Some([s])
    ensures |tail| >= 2 && tail[..2] == ", " && ReadItems(tail[2..]).Some? ==>
      ReadItems(t) == Some([s] + ReadItems(tail[2..]).value)
  {
  }

  /** Dropping the first character of `r + tail` drops it from `r`. */
  lemma AfterFirst(r: string, tail: string)
    requires r != []
    ensures (r + tail)[0] == r[0] && (r + tail)[1..] == r[1..] + tail
  {
  }

  /** `repr(s)` at the front of a list display's items reads back as `s`. */
  lemma StrReprFront(s: string, tail: string)
    ensures tail == [] ==> ReadItems(StrRepr(s) + tail) == Some([s])
    ensures |tail| >= 2 && tail[..2] == ", " && ReadItems(tail[2..]).Some? ==>
      ReadItems(StrRepr(s) + tail) == Some([s] + ReadItems(tail[2..]).value)
  {
    var r := StrRepr(s);
    var t := r + tail;
    StrReprRead(s, tail);
    AfterFirst(r, tail);
    ReadItemsFront(t, s, tail);
  }

  /** The items of `repr(ss)` read back as `ss`. */
  lemma {:induction false} ReprItemsRead(ss: seq<string>)
    requires ss != []
    ensures ReadItems(ReprItems(ss)) == Some(ss)
    decreases |ss|
  {
    if |ss| == 1 {
      StrReprFront(ss[0], "");
      assert StrRepr(ss[0]) + "" == ReprItems(ss);
      assert ss == [ss[0]];
    } else {
      var tail := ", " + ReprItems(ss[1..]);
      StrReprFront(ss[0], tail);
      assert StrRepr(ss[0]) + tail == ReprItems(ss);
      assert tail[..2] == ", " && tail[2..] == ReprItems(ss[1..]);
      ReprItemsRead(ss[1..]);
      assert [ss[0]] + ss[1..] == ss;
    }
  }

  /** `ast.literal_eval(repr(ss)) == ss` for a list of strings. */
  lemma ListReprRead(ss: seq<string>)
    ensures ReadList(ListRepr(ss)) == Some(ss)
  {
    var r := ListRepr(ss);
    assert r[1..|r| - 1] == ReprItems(ss);
    if ss != [] {
      assert |StrRepr(ss[0])| >= 2;
      ReprItemsRead(ss);
    }
  }
}
