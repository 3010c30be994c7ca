/** The string operations the source leans on: Python's `str.strip`,
    `str.split`, `str.join`, `str.lower`, `int(...)` and `str(int)`, and
    JavaScript's `String.prototype.trim`. */
module Text {
  import opened Common

  /** Python's `str.isspace` on one character, the set `str.strip()` removes. */
  predicate IsPySpace(c: char)
  {
    ('\t' <= c <= '\r') || ('\U{1c}' <= c <= '\U{1f}') || c == ' '
    || c == '\U{85}' || c == '\U{a0}' || c == '\U{1680}'
    || ('\U{2000}' <= c <= '\U{200a}') || c == '\U{2028}' || c == '\U{2029}'
    || c == '\U{202f}' || c == '\U{205f}' || c == '\U{3000}'
  }

  /** The characters JavaScript's `trim()` removes: WhiteSpace and LineTerminator. */
  predicate IsJsSpace(c: char)
  {
    ('\t' <= c <= '\r') || c == ' ' || c == '\U{a0}' || c == '\U{1680}'
    || ('\U{2000}' <= c <= '\U{200a}') || c == '\U{2028}' || c == '\U{2029}'
    || c == '\U{202f}' || c == '\U{205f}' || c == '\U{3000}' || c == '\U{feff}'
  }

  /** Drops the leading characters that satisfy `space`. */
  function TrimStart(s: string, space: char -> bool): (r: string)
    ensures |r| <= |s|
    ensures r == [] || !space(r[0])
  {
    if s == [] || !space(s[0]) then s else TrimStart(s[1..], space)
  }

  /** Drops the trailing characters that satisfy `space`. */
  function TrimEnd(s: string, space: char -> bool): (r: string)
    ensures |r| <= |s|
    ensures r == [] || !space(r[|r| - 1])
  {
    if s == [] || !space(s[|s| - 1]) then s else TrimEnd(s[..|s| - 1], space)
  }

  /** `strip()` / `trim()` with the given notion of whitespace. */
  function Trim(s: string, space: char -> bool): string
  {
    TrimEnd(TrimStart(s, space), space)
  }

  /** `TrimStart` keeps a suffix. */
  lemma {:induction false} TrimStartIsSuffix(s: string, space: char -> bool)
    ensures TrimStart(s, space) == s[|s| - |TrimStart(s, space)|..]
  {
    if s != [] && space(s[0]) {
      TrimStartIsSuffix(s[1..], space);
    }
  }

  /** `TrimEnd` keeps a prefix. */
  lemma {:induction false} TrimEndIsPrefix(s: string, space: char -> bool)
    ensures TrimEnd(s, space) == s[..|TrimEnd(s, space)|]
  {
    if s != [] && space(s[|s| - 1]) {
      TrimEndIsPrefix(s[..|s| - 1], space);
    }
  }

  /** Every character `TrimStart` drops is whitespace. */
  lemma {:induction false} TrimStartDropsSpace(s: string, space: char -> bool)
    ensures forall i :: 0 <= i < |s| - |TrimStart(s, space)| ==> space(s[i])
  {
    if s != [] && space(s[0]) {
      TrimStartDropsSpace(s[1..], space);
      assert forall i :: 1 <= i < |s| ==> s[i] == s[1..][i - 1];
    }
  }

  /** Every character `TrimEnd` drops is whitespace. */
  lemma {:induction false} TrimEndDropsSpace(s: string, space: char -> bool)
    ensures forall i :: |TrimEnd(s, space)| <= i < |s| ==> space(s[i])
  {
    if s != [] && space(s[|s| - 1]) {
      TrimEndDropsSpace(s[..|s| - 1], space);
      assert forall i :: 0 <= i < |s| - 1 ==> s[i] == s[..|s| - 1][i];
    }
  }

  /** A string trims to nothing exactly when every character is whitespace. */
  lemma TrimEmptyIffBlank(s: string, space: char -> bool)
    ensures Trim(s, space) == [] <==> forall i :: 0 <= i < |s| ==> space(s[i])
  {
    var l := TrimStart(s, space);
    TrimStartIsSuffix(s, space);
    TrimEndIsPrefix(l, space);
    TrimStartDropsSpace(s, space);
    TrimEndDropsSpace(l, space);
    if Trim(s, space) == [] {
      forall i | 0 <= i < |s| ensures space(s[i]) {
        if i >= |s| - |l| {
          assert s[i] == l[i - (|s| - |l|)];
        }
      }
    }
  }

  /** A string whose ends are not whitespace is its own trim. */
  lemma TrimUnchanged(s: string, space: char -> bool)
    requires s == [] || (!space(s[0]) && !space(s[|s| - 1]))
    ensures Trim(s, space) == s
  {
  }

  /** Python's `str.lower()` on ASCII letters. */
  function LowerChar(c: char): char
  {
    if 'A' <= c <= 'Z' then (c as int + 32) as char else c
  }

  /** JavaScript's `toUpperCase()` on ASCII letters. */
  function UpperChar(c: char): char
  {
    if 'a' <= c <= 'z' then (c as int - 32) as char else c
  }

  function Lower(s: string): (r: string)
    ensures |r| == |s| && forall i :: 0 <= i < |s| ==> r[i] == LowerChar(s[i])
  {
    seq(|s|, i requires 0 <= i < |s| => LowerChar(s[i]))
  }

  /** `sub in s` for strings. */
  predicate Contains(s: string, sub: string)
  {
    exists i :: 0 <= i <= |s| && sub <= s[i..]
  }

  /** The index of the last occurrence of `c`, if any. */
  function LastIndexOf(s: string, c: char): (r: Option<nat>)
    ensures r.None? <==> c !in s
    ensures r.Some? ==> r.value < |s| && s[r.value] == c && c !in s[r.value + 1..]
  {
    if s == [] then None
    else if s[|s| - 1] == c then Some(|s| - 1)
    else
      var r := LastIndexOf(s[..|s| - 1], c);
      assert s == s[..|s| - 1] + [s[|s| - 1]];
      if r.Some? then assert s[r.value + 1..] == s[..|s| - 1][r.value + 1..] + [s[|s| - 1]]; r
      else r
  }

  /** `s.rsplit(c, 1)[-1]`: the text after the last `c`, or all of `s`. */
  function AfterLast(s: string, c: char): (r: string)
    ensures c !in r
    ensures c !in s ==> r == s
    ensures c in s ==> exists k :: 0 <= k < |s| && s[k] == c && r == s[k + 1..]
  {
    match LastIndexOf(s, c)
    case None => s
    case Some(k) => s[k + 1..]
  }

  /** `s.rsplit(c, 1)[1]`: the text after the last `c`; `None` where Python
      raises `IndexError` because there is no `c`. */
  function AfterLastStrict(s: string, c: char): (r: Option<string>)
    ensures r.None? <==> c !in s
    ensures r.Some? ==> r.value == AfterLast(s, c)
  {
    if c in s then Some(AfterLast(s, c)) else None
  }

  predicate IsDigit(c: char)
  {
    '0' <= c <= '9'
  }

  function DigitChar(d: nat): (c: char)
    requires d < 10
    ensures IsDigit(c)
  {
    (48 + d) as char
  }

  function DigitValue(c: char): (d: nat)
    requires IsDigit(c)
    ensures d < 10 && DigitChar(d) == c
  {
    c as int - 48
  }

  /** Decimal digits of `n`, most significant first, no leading zeros. */
  function NatToString(n: nat): (r: string)
    ensures |r| > 0 && forall i :: 0 <= i < |r| ==> IsDigit(r[i])
  {
    if n < 10 then [DigitChar(n)] else NatToString(n / 10) + [DigitChar(n % 10)]
  }

  /** `str(n)` in Python, `${n}` in JavaScript, for an integer. */
  function IntToString(n: int): (r: string)
    ensures |r| > 0 && (r[0] == '-' || IsDigit(r[0])) && IsDigit(r[|r| - 1])
    ensures forall i :: 0 < i < |r| ==> IsDigit(r[i])
  {
    if n < 0 then "-" + NatToString(-n) else NatToString(n)
  }

  predicate AllDigits(s: string)
  {
    forall i :: 0 <= i < |s| ==> IsDigit(s[i])
  }

  /** The value of a string of decimal digits. */
  function DigitsValue(s: string): nat
    requires AllDigits(s)
  {
    if s == [] then 0 else DigitsValue(s[..|s| - 1]) * 10 + DigitValue(s[|s| - 1])
  }

  /** Reading back the digits of `n` gives `n`. */
  lemma {:induction false} DigitsValueOfNat(n: nat)
    ensures DigitsValue(NatToString(n)) == n
  {
    if n >= 10 {
      var s := NatToString(n);
      assert s[..|s| - 1] == NatToString(n / 10);
      DigitsValueOfNat(n / 10);
    }
  }

  /** The digit part Python's `int()` accepts: ASCII digits, with single
      underscores allowed between two digits (`1_000`). */
  predicate IsDigitGroup(s: string)
  {
    && |s| > 0 && IsDigit(s[0]) && IsDigit(s[|s| - 1])
    && (forall i :: 0 <= i < |s| ==> IsDigit(s[i]) || s[i] == '_')
    && (forall i, j :: 0 <= i < |s| && 0 <= j < |s| && j == i + 1 ==> !(s[i] == '_' && s[j] == '_'))
  }

  /** The digits of `s` with the underscores left out. */
  function DropUnderscores(s: string): (r: string)
    requires forall i :: 0 <= i < |s| ==> IsDigit(s[i]) || s[i] == '_'
    ensures AllDigits(r)
    ensures AllDigits(s) ==> r == s
  {
    if s == [] then []
    else (if s[0] == '_' then [] else [s[0]]) + DropUnderscores(s[1..])
  }

  /** Python's `int(s)` for base 10: surrounding whitespace is ignored, an
      optional sign is allowed, and `None` stands for the `ValueError` it
      raises on anything else. */
  function ParseInt(s: string): (r: Option<int>)
    ensures r.Some? ==> Trim(s, IsPySpace) != []
  {
    ParseSigned(Trim(s, IsPySpace))
  }

  /** `int()` on text that has already been stripped. */
  function ParseSigned(t: string): Option<int>
  {
    if t == [] then None
    else
      var negative := t[0] == '-';
      var body := if t[0] == '-' || t[0] == '+' then t[1..] else t;
      if !IsDigitGroup(body) then None
      else
        var v: int := DigitsValue(DropUnderscores(body));
        Some(if negative then -v else v)
  }

  /** The digits of a natural number are a group `int()` accepts, and
      they read back as the number. */
  lemma NatStringIsGroup(n: nat)
    ensures IsDigitGroup(NatToString(n))
    ensures DropUnderscores(NatToString(n)) == NatToString(n)
    ensures DigitsValue(DropUnderscores(NatToString(n))) == n
  {
    DigitsValueOfNat(n);
  }

  /** `str(n)` is already stripped. */
  lemma IntStringTrimmed(n: int)
    ensures Trim(IntToString(n), IsPySpace) == IntToString(n)
  {
    var s := IntToString(n);
    assert !IsPySpace(s[0]) && !IsPySpace(s[|s| - 1]);
    TrimUnchanged(s, IsPySpace);
  }

  lemma ParseSignedNat(n: nat)
    ensures ParseSigned(NatToString(n)) == Some(n)
  {
    var s := NatToString(n);
    assert IsDigit(s[0]);
    assert s[0] != '-' && s[0] != '+';
    NatStringIsGroup(n);
  }

  lemma ParseSignedNeg(n: nat)
    ensures ParseSigned("-" + NatToString(n)) == Some(-(n as int))
  {
    var s := "-" + NatToString(n);
    assert s[0] == '-';
    assert s[1..] == NatToString(n);
    NatStringIsGroup(n);
  }

  /** The stripped text of `str(n)` reads as `n`. */
  lemma ParseSignedOfString(n: int)
    ensures ParseSigned(IntToString(n)) == Some(n)
  {
    if n < 0 {
      ParseSignedOfNegative(n);
    } else {
      ParseSignedNat(n);
    }
  }

  lemma ParseSignedOfNegative(n: int)
    requires n < 0
    ensures ParseSigned(IntToString(n)) == Some(n)
  {
    var m: nat := -n;
    var s := "-" + NatToString(m);
    assert IntToString(n) == s;
    ParseSignedNeg(m);
    assert ParseSigned(s) == Some(n);
  }

  /** `int(str(n)) == n`. */
  lemma ParseIntOfString(n: int)
    ensures ParseInt(IntToString(n)) == Some(n)
  {
    IntStringTrimmed(n);
    ParseSignedOfString(n);
  }

  /** Python's `s.split(sep)` for a non-empty separator: the pieces between
      the non-overlapping occurrences of `sep`, scanning from the left. */
  function Split(s: string, sep: string): (parts: seq<string>)
    requires sep != []
    ensures |parts| > 0
    decreases |s|
  {
    if s == [] then [[]]
    else if sep <= s then [[]] + Split(s[|sep|..], sep)
    else
      var rest := Split(s[1..], sep);
      [[s[0]] + rest[0]] + rest[1..]
  }

  /** `sep.join(parts)`. */
  function Join(parts: seq<string>, sep: string): string
  {
    if parts == [] then []
    else if |parts| == 1 then parts[0]
    else parts[0] + sep + Join(parts[1..], sep)
  }

  /** How `Join` takes a piece off the front. */
  lemma JoinCons(x: string, rest: seq<string>, sep: string)
    requires |rest| > 0
    ensures Join([x] + rest, sep) == x + sep + Join(rest, sep)
  {
    assert ([x] + rest)[1..] == rest;
  }

  /** A join holds only characters of its pieces and of the separator. */
  lemma {:induction false} JoinChars(parts: seq<string>, sep: string, f: char -> bool)
    requires forall k, i :: 0 <= k < |parts| && 0 <= i < |parts[k]| ==> f(parts[k][i])
    requires forall i :: 0 <= i < |sep| ==> f(sep[i])
    ensures forall i :: 0 <= i < |Join(parts, sep)| ==> f(Join(parts, sep)[i])
  {
    if |parts| > 1 {
      var t := Join(parts[1..], sep);
      assert forall k :: 0 <= k < |parts[1..]| ==> parts[1..][k] == parts[k + 1];
      JoinChars(parts[1..], sep, f);
      var j := parts[0] + sep + t;
      forall i | 0 <= i < |j| ensures f(j[i]) {
        if i < |parts[0]| {
          assert j[i] == parts[0][i];
        } else if i < |parts[0]| + |sep| {
          assert j[i] == sep[i - |parts[0]|];
        } else {
          assert j[i] == t[i - |parts[0]| - |sep|];
        }
      }
    }
  }

  /** A join starts with its first piece. */
  lemma JoinStartsWithFirst(parts: seq<string>, sep: string)
    requires |parts| > 0
    ensures parts[0] <= Join(parts, sep)
  {
    if |parts| > 1 {
      assert Join(parts, sep) == parts[0] + (sep + Join(parts[1..], sep));
    }
  }

  /** Joining the pieces of a split with the same separator gives back the
      string. */
  lemma {:induction false} JoinSplit(s: string, sep: string)
    requires sep != []
    ensures Join(Split(s, sep), sep) == s
    decreases |s|
  {
    if s == [] {
    } else if sep <= s {
      JoinSplit(s[|sep|..], sep);
      JoinSplitAtSep(s, sep);
    } else {
      JoinSplit(s[1..], sep);
      JoinSplitPlain(s, sep);
    }
  }

  /** The step of `JoinSplit` for a string that starts with the separator. */
  lemma JoinSplitAtSep(s: string, sep: string)
    requires sep != [] && sep <= s
    requires Join(Split(s[|sep|..], sep), sep) == s[|sep|..]
    ensures Join(Split(s, sep), sep) == s
  {
    var t := s[|sep|..];
    PrefixThenRest(s, sep);
    assert Split(s, sep) == [[]] + Split(t, sep);
    JoinCons([], Split(t, sep), sep);
    assert [] + sep == sep;
  }

  /** A string is its prefix followed by the rest. */
  lemma PrefixThenRest(s: string, p: string)
    requires p <= s
    ensures s == p + s[|p|..]
  {
    assert s[..|p|] == p;
  }

  /** The step of `JoinSplit` for a string that does not start with it. */
  lemma JoinSplitPlain(s: string, sep: string)
    requires sep != [] && s != [] && !(sep <= s)
    requires Join(Split(s[1..], sep), sep) == s[1..]
    ensures Join(Split(s, sep), sep) == s
  {
    var rest := Split(s[1..], sep);
    assert Split(s, sep) == [[s[0]] + rest[0]] + rest[1..];
    JoinGlue(s[0], rest, sep);
    assert Join(Split(s, sep), sep) == [s[0]] + s[1..];
    assert s == [s[0]] + s[1..];
  }

  /** Gluing a character to the first piece puts it in front of the join. */
  lemma JoinGlue(c: char, rest: seq<string>, sep: string)
    requires |rest| > 0
    ensures Join([[c] + rest[0]] + rest[1..], sep) == [c] + Join(rest, sep)
  {
    if |rest| > 1 {
      assert rest == [rest[0]] + rest[1..];
      JoinCons(rest[0], rest[1..], sep);
      JoinCons([c] + rest[0], rest[1..], sep);
      assert ([c] + rest[0]) + sep + Join(rest[1..], sep)
          == [c] + (rest[0] + sep + Join(rest[1..], sep));
    }
  }

  /** A prefix free of the separator's first character stays glued to the
      first piece of what follows it. */
  lemma {:induction false} SplitAfterPlain(a: string, b: string, sep: string)
    requires sep != [] && sep[0] !in a
    ensures Split(a + b, sep) == [a + Split(b, sep)[0]] + Split(b, sep)[1..]
    decreases |a|
  {
    var bs := Split(b, sep);
    if a == [] {
      assert a + b == b;
      assert a + bs[0] == bs[0];
      assert [bs[0]] + bs[1..] == bs;
    } else {
      var ab := a + b;
      assert ab[0] == a[0];
      assert ab[1..] == a[1..] + b;
      assert !(sep <= ab);
      SplitAfterPlain(a[1..], b, sep);
      var rest := Split(ab[1..], sep);
      assert rest == [a[1..] + bs[0]] + bs[1..];
      assert rest[0] == a[1..] + bs[0] && rest[1..] == bs[1..];
      assert Split(ab, sep) == [[ab[0]] + rest[0]] + rest[1..];
      assert [ab[0]] + (a[1..] + bs[0]) == a + bs[0];
    }
  }

  /** The inductive step of `SplitJoin`: a first piece without the
      separator's first character, then the separator and a join that splits
      back into the other pieces. */
  lemma SplitJoinStep(parts: seq<string>, sep: string)
    requires sep != [] && |parts| > 1 && sep[0] !in parts[0]
    requires Split(Join(parts[1..], sep), sep) == parts[1..]
    ensures Split(Join(parts, sep), sep) == parts
  {
    var tail := Join(parts[1..], sep);
    var st := sep + tail;
    assert st[|sep|..] == tail;
    assert sep <= st;
    var ss := Split(st, sep);
    assert ss == [[]] + parts[1..];
    assert ss[0] == [] && ss[1..] == parts[1..];
    assert Join(parts, sep) == parts[0] + st;
    SplitAfterPlain(parts[0], st, sep);
    assert parts[0] + [] == parts[0];
    assert parts == [parts[0]] + parts[1..];
  }

  /** Splitting a join gives back the pieces, when no piece holds the
      separator's first character. */
  lemma {:induction false} SplitJoin(parts: seq<string>, sep: string)
    requires sep != [] && |parts| > 0
    requires forall k :: 0 <= k < |parts| ==> sep[0] !in parts[k]
    ensures Split(Join(parts, sep), sep) == parts
  {
    if |parts| == 1 {
      SplitAfterPlain(parts[0], [], sep);
      assert parts[0] + [] == parts[0];
    } else {
      assert forall k :: 0 <= k < |parts| - 1 ==> parts[1..][k] == parts[k + 1];
      SplitJoin(parts[1..], sep);
      SplitJoinStep(parts, sep);
    }
  }

  /** `list(map(int, parts))`; `None` where some part is not an integer. */
  function ParseInts(parts: seq<string>): (r: Option<seq<int>>)
    ensures r.Some? <==> forall i :: 0 <= i < |parts| ==> ParseInt(parts[i]).Some?
    ensures r.Some? ==> |r.value| == |parts|
    ensures r.Some? ==> forall i :: 0 <= i < |parts| ==> ParseInt(parts[i]) == Some(r.value[i])
  {
    if parts == [] then Some([])
    else
      var head := ParseInt(parts[0]);
      var tail := ParseInts(parts[1..]);
      assert forall i :: 1 <= i < |parts| ==> parts[i] == parts[1..][i - 1];
      if head.Some? && tail.Some? then Some([head.value] + tail.value) else None
  }

  /** `str(n)` never holds a comma. */
  lemma NoCommaInIntString(n: int)
    ensures ',' !in IntToString(n)
  {
    var s := IntToString(n);
    assert forall i :: 0 <= i < |s| ==> s[i] != ',' by {
      forall i | 0 <= i < |s| ensures s[i] != ',' {
        if i > 0 {
          assert IsDigit(s[i]);
        }
      }
    }
  }

  /** Reading one more integer text in front. */
  lemma ParseIntsCons(x: string, rest: seq<string>, n: int, ns: seq<int>)
    requires ParseInt(x) == Some(n) && ParseInts(rest) == Some(ns)
    ensures ParseInts([x] + rest) == Some([n] + ns)
  {
    assert ([x] + rest)[0] == x;
    assert ([x] + rest)[1..] == rest;
  }

  /** `[str(n) for n in ns]`. */
  function IntStrings(ns: seq<int>): (r: seq<string>)
    ensures |r| == |ns| && forall i :: 0 <= i < |ns| ==> r[i] == IntToString(ns[i])
  {
    if ns == [] then [] else [IntToString(ns[0])] + IntStrings(ns[1..])
  }

  /** Reading the texts of integers gives the integers back. */
  lemma ParseIntsOfStrings(ns: seq<int>)
    ensures ParseInts(IntStrings(ns)) == Some(ns)
  {
    var strs := IntStrings(ns);
    forall i | 0 <= i < |ns| ensures ParseInt(strs[i]) == Some(ns[i]) {
      ParseIntOfString(ns[i]);
    }
    assert ParseInts(strs).value == ns;
  }

  /** No piece of a split on one character holds that character. */
  lemma {:induction false} SplitPiecesAvoid(s: string, c: char)
    ensures forall k :: 0 <= k < |Split(s, [c])| ==> c !in Split(s, [c])[k]
    decreases |s|
  {
    if s != [] {
      if [c] <= s {
        SplitPiecesAvoid(s[1..], c);
        assert s[|[c]|..] == s[1..];
      } else {
        SplitPiecesAvoid(s[1..], c);
        assert s[0] != c;
      }
    }
  }

  /** A trimmed string is a piece of the original: it holds no character
      the original does not. */
  lemma TrimKeepsOut(s: string, c: char, space: char -> bool)
    requires c !in s
    ensures c !in Trim(s, space)
  {
    var l := TrimStart(s, space);
    var t := Trim(s, space);
    TrimStartIsSuffix(s, space);
    TrimEndIsPrefix(l, space);
    var n := |s| - |l|;
    assert t == s[n..n + |t|];
  }

  /** A trimmed string starts and ends with a non-space character. */
  lemma TrimmedEnds(s: string, space: char -> bool)
    ensures Trim(s, space) == [] || (!space(Trim(s, space)[0]) && !space(Trim(s, space)[|Trim(s, space)| - 1]))
  {
    var l := TrimStart(s, space);
    TrimEndIsPrefix(l, space);
    if Trim(s, space) != [] {
      assert Trim(s, space)[0] == l[0];
    }
  }

  /** The text after the last `c` of `a + [c] + b`, where `b` has no `c`,
      is `b`. */
  lemma AfterLastOfSuffix(a: string, c: char, b: string)
    requires c !in b
    ensures AfterLast(a + [c] + b, c) == b
  {
    var s := a + [c] + b;
    assert s[|a|] == c;
    assert s[|a| + 1..] == b;
  }

  /** Lower-casing twice is lower-casing once. */
  lemma LowerIdempotent(s: string)
    ensures Lower(Lower(s)) == Lower(s)
  {
  }

  /** Different integers have different texts. */
  lemma IntToStringInjective(a: int, b: int)
    requires a != b
    ensures IntToString(a) != IntToString(b)
  {
    ParseIntOfString(a);
    ParseIntOfString(b);
  }
}
