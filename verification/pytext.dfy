/** The few string operations the puzzle parsers use: `str.strip()`,
    `str.split(sep)` with an explicit one-character separator,
    `str.startswith`, removing one character with `str.replace(c, '')`,
    and `int(text)` on decimal literals. */
module PyText {
  import opened Results

  /** The characters `str.strip()` removes (`str.isspace`): the ASCII
      controls from tab to carriage return, the four separators 0x1C to
      0x1F, space, next-line, no-break space, and the Unicode space
      separators, line and paragraph separators. */
  predicate IsSpace(c: char)
  {
    || c == ' ' || '\t' <= c <= '\r' || '\U{1C}' <= c <= '\U{1F}' || c == '\U{85}' || c == '\U{A0}'
    || c == '\U{1680}' || '\U{2000}' <= c <= '\U{200A}' || c == '\U{2028}' || c == '\U{2029}'
    || c == '\U{202F}' || c == '\U{205F}' || c == '\U{3000}'
  }

  function LeftStrip(s: string): (r: string)
    ensures |r| <= |s| && r == s[|s| - |r|..]
    ensures r == [] || !IsSpace(r[0])
    ensures forall k :: 0 <= k < |s| - |r| ==> IsSpace(s[k])
  {
    if s != [] && IsSpace(s[0]) then LeftStrip(s[1..]) else s
  }

  function RightStrip(s: string): (r: string)
    ensures |r| <= |s| && r == s[..|r|]
    ensures r == [] || !IsSpace(r[|r| - 1])
    ensures forall k :: |r| <= k < |s| ==> IsSpace(s[k])
  {
    if s != [] && IsSpace(s[|s| - 1]) then RightStrip(s[..|s| - 1]) else s
  }

  /** Where `s.strip()` starts: the number of leading whitespace characters. */
  function StripStart(s: string): nat
  {
    |s| - |LeftStrip(s)|
  }

  /** `s.strip()`: the infix left after dropping whitespace at both ends;
      it neither starts nor ends with whitespace, and everything dropped is
      whitespace. */
  function Strip(s: string): (r: string)
    ensures StripStart(s) + |r| <= |s|
    ensures r == s[StripStart(s)..StripStart(s) + |r|]
    ensures r == [] || (!IsSpace(r[0]) && !IsSpace(r[|r| - 1]))
    ensures forall k :: 0 <= k < StripStart(s) ==> IsSpace(s[k])
    ensures forall k :: StripStart(s) + |r| <= k < |s| ==> IsSpace(s[k])
  {
    var l := LeftStrip(s);
    var r := RightStrip(l);
    TailIndex(s, l);
    r
  }

  /** Positions in a suffix of `s` are positions of `s`, shifted. */
  lemma TailIndex(s: string, l: string)
    requires |l| <= |s| && l == s[|s| - |l|..]
    ensures forall k :: |s| - |l| <= k < |s| ==> s[k] == l[k - (|s| - |l|)]
  {
  }

  /** A string without whitespace at its ends is its own strip. */
  lemma StripUnpadded(s: string)
    requires s != [] && !IsSpace(s[0]) && !IsSpace(s[|s| - 1])
    ensures Strip(s) == s
  {
  }

  /** Stripping twice strips nothing more. */
  lemma StripIdempotent(s: string)
    ensures Strip(Strip(s)) == Strip(s)
  {
  }

  function StartsWith(s: string, prefix: string): bool
  {
    |prefix| <= |s| && s[..|prefix|] == prefix
  }

  /** `s.replace(c, '')` for a single character `c`. */
  function Remove(s: string, c: char): (r: string)
    ensures c !in r
    ensures |r| <= |s|
    ensures forall x :: x in r <==> x in s && x != c
  {
    if s == [] then []
    else if s[0] == c then Remove(s[1..], c)
    else [s[0]] + Remove(s[1..], c)
  }

  /** Dropping a character that does not occur changes nothing. */
  lemma {:induction false} RemoveAbsent(s: string, c: char)
    requires forall i :: 0 <= i < |s| ==> s[i] != c
    ensures Remove(s, c) == s
  {
    if s != [] {
      RemoveAbsent(s[1..], c);
      assert s == [s[0]] + s[1..];
    }
  }

  /** Dropping a character distributes over concatenation. */
  lemma {:induction false} RemoveConcat(a: string, b: string, c: char)
    ensures Remove(a + b, c) == Remove(a, c) + Remove(b, c)
  {
    if a != [] {
      RemoveConcat(a[1..], b, c);
      assert (a + b)[0] == a[0] && (a + b)[1..] == a[1..] + b;
      var rest := Remove(a[1..], c);
      if a[0] != c {
        assert Remove(a, c) == [a[0]] + rest;
        assert ([a[0]] + rest) + Remove(b, c) == [a[0]] + (rest + Remove(b, c));
      }
    } else {
      assert a + b == b;
    }
  }

  /** Dropping a character other than the separator from joined pieces
      drops it from every piece. */
  lemma {:induction false} RemoveJoin(parts: seq<string>, removed: seq<string>, sep: char, c: char)
    requires |parts| >= 1 && |removed| == |parts| && c != sep
    requires forall k :: 0 <= k < |parts| ==> Remove(parts[k], c) == removed[k]
    ensures Remove(Join(parts, sep), c) == Join(removed, sep)
    decreases |parts|
  {
    if |parts| > 1 {
      RemoveJoin(parts[1..], removed[1..], sep, c);
      RemoveConcat(parts[0] + [sep], Join(parts[1..], sep), c);
      RemoveConcat(parts[0], [sep], c);
      assert Remove([sep], c) == [sep] by {
        assert [sep][1..] == [];
      }
    }
  }

  /** Re-assembles split pieces with the separator between them. */
  function Join(parts: seq<string>, sep: char): string
    requires |parts| >= 1
  {
    if |parts| == 1 then parts[0] else parts[0] + [sep] + Join(parts[1..], sep)
  }

  /** Joining one more piece appends the separator and that piece. */
  lemma {:induction false} JoinSnoc(parts: seq<string>, x: string, sep: char)
    requires |parts| >= 1
    ensures Join(parts + [x], sep) == Join(parts, sep) + [sep] + x
  {
    if |parts| > 1 {
      assert (parts + [x])[1..] == parts[1..] + [x];
      JoinSnoc(parts[1..], x, sep);
    } else {
      assert (parts + [x])[1..] == [x];
    }
  }

  /** Joined pieces start with the first piece and end with the last. */
  lemma {:induction false} JoinEnds(parts: seq<string>, sep: char)
    requires |parts| >= 1 && parts[0] != [] && parts[|parts| - 1] != []
    ensures var s := Join(parts, sep);
            s != [] && s[0] == parts[0][0] && s[|s| - 1] == parts[|parts| - 1][|parts[|parts| - 1]| - 1]
  {
    if |parts| > 1 {
      var tail := parts[1..];
      if tail[0] == [] {
        assert Join(parts, sep) == parts[0] + [sep] + Join(tail, sep);
        assert |tail| > 1;
        assert tail[1..][|tail[1..]| - 1] == tail[|tail| - 1];
        JoinEndsLast(tail, sep);
      } else {
        JoinEnds(tail, sep);
      }
    }
  }

  /** Joined pieces end with the last piece when it is not empty. */
  lemma {:induction false} JoinEndsLast(parts: seq<string>, sep: char)
    requires |parts| >= 1 && parts[|parts| - 1] != []
    ensures var s := Join(parts, sep);
            s != [] && s[|s| - 1] == parts[|parts| - 1][|parts[|parts| - 1]| - 1]
  {
    if |parts| > 1 {
      JoinEndsLast(parts[1..], sep);
    }
  }

  /** `s.split(sep)`: empty pieces are kept, so there is always one more
      piece than there are separators. */
  function Split(s: string, sep: char): (r: seq<string>)
    ensures |r| >= 1
    ensures forall k :: 0 <= k < |r| ==> sep !in r[k]
    ensures Join(r, sep) == s
  {
    if s == [] then [[]]
    else
      var rest := Split(s[1..], sep);
      if s[0] == sep then
        assert s == [sep] + s[1..];
        [[]] + rest
      else
        var r := [[s[0]] + rest[0]] + rest[1..];
        assert r[1..] == rest[1..];
        assert s == [s[0]] + s[1..];
        r
  }

  /** Splitting undoes joining whenever no piece contains the separator. */
  lemma {:induction false} SplitJoin(parts: seq<string>, sep: char)
    requires |parts| >= 1
    requires forall k :: 0 <= k < |parts| ==> sep !in parts[k]
    ensures Split(Join(parts, sep), sep) == parts
    decreases |parts|, |parts[0]|
  {
    if parts[0] == [] {
      if |parts| > 1 {
        assert Join(parts, sep) == [sep] + Join(parts[1..], sep);
        SplitJoin(parts[1..], sep);
        assert parts == [[]] + parts[1..];
      }
    } else {
      var p := ShortenHead(parts, sep);
      SplitJoin(p, sep);
      SplitCons(parts[0][0], Join(p, sep), sep);
      assert parts[0] == [parts[0][0]] + p[0];
      assert parts == [parts[0]] + parts[1..];
    }
  }

  /** The pieces with the first character of the first piece taken off. */
  lemma ShortenHead(parts: seq<string>, sep: char) returns (p: seq<string>)
    requires |parts| >= 1 && parts[0] != []
    requires forall k :: 0 <= k < |parts| ==> sep !in parts[k]
    ensures |p| == |parts| && p[0] == parts[0][1..] && p[1..] == parts[1..]
    ensures forall k :: 0 <= k < |p| ==> sep !in p[k]
    ensures Join(parts, sep) == [parts[0][0]] + Join(p, sep)
  {
    p := [parts[0][1..]] + parts[1..];
    assert p[1..] == parts[1..];
    assert forall k :: 1 <= k < |p| ==> p[k] == parts[k];
    assert sep !in p[0] by {
      assert forall x :: x in parts[0][1..] ==> x in parts[0];
    }
    assert parts[0] == [parts[0][0]] + parts[0][1..];
  }

  /** A leading character other than the separator joins the first piece. */
  lemma SplitCons(c: char, s: string, sep: char)
    requires c != sep
    ensures Split([c] + s, sep) == [[c] + Split(s, sep)[0]] + Split(s, sep)[1..]
  {
    assert ([c] + s)[1..] == s;
  }

  /** A text without the separator is a single piece. */
  lemma {:induction false} SplitPlain(s: string, sep: char)
    requires sep !in s
    ensures Split(s, sep) == [s]
  {
    if s != [] {
      SplitPlain(s[1..], sep);
      assert s == [s[0]] + s[1..];
    }
  }

  /** The text up to the first separator is the first piece, and the rest
      is split on its own. */
  lemma {:induction false} SplitFirst(a: string, b: string, sep: char)
    requires sep !in a
    ensures Split(a + [sep] + b, sep) == [a] + Split(b, sep)
  {
    if a == [] {
      assert ([sep] + b)[1..] == b;
    } else {
      SplitFirst(a[1..], b, sep);
      assert a + [sep] + b == [a[0]] + (a[1..] + [sep] + b);
      SplitCons(a[0], a[1..] + [sep] + b, sep);
      assert a == [a[0]] + a[1..];
    }
  }

  /** The text after the last separator is the last piece. */
  lemma {:induction false} SplitLast(a: string, b: string, sep: char)
    requires sep !in b
    ensures Split(a + [sep] + b, sep) == Split(a, sep) + [b]
  {
    if a == [] {
      assert ([sep] + b)[1..] == b;
      SplitPlain(b, sep);
    } else {
      var rest := a[1..] + [sep] + b;
      SplitLast(a[1..], b, sep);
      assert a + [sep] + b == [a[0]] + rest;
      assert a == [a[0]] + a[1..];
      if a[0] == sep {
        assert ([a[0]] + rest)[1..] == rest;
      } else {
        SplitLastFront(a[0], a[1..], b, rest, sep);
      }
    }
  }

  /** A leading character other than the separator joins the first piece
      in both texts of SplitLast. */
  lemma SplitLastFront(c: char, a: string, b: string, rest: string, sep: char)
    requires c != sep
    requires Split(rest, sep) == Split(a, sep) + [b]
    ensures Split([c] + rest, sep) == Split([c] + a, sep) + [b]
  {
    var front := Split(a, sep);
    SplitCons(c, rest, sep);
    SplitCons(c, a, sep);
    assert (front + [b])[1..] == front[1..] + [b];
  }

  /** Two pieces without the separator, joined by it, split back apart. */
  lemma SplitTwo(a: string, b: string, sep: char)
    requires sep !in a && sep !in b
    ensures Split(a + [sep] + b, sep) == [a, b]
  {
    SplitLast(a, b, sep);
    SplitPlain(a, sep);
  }

  /** A non-empty piece of text without whitespace. */
  predicate Token(w: string)
  {
    w != [] && forall k :: 0 <= k < |w| ==> !IsSpace(w[k])
  }

  /** Tokens joined by single spaces are already stripped and split back
      into the tokens. */
  lemma SplitJoinTokens(ws: seq<string>)
    requires |ws| >= 1 && forall k :: 0 <= k < |ws| ==> Token(ws[k])
    ensures Split(Strip(Join(ws, ' ')), ' ') == ws
  {
    assert IsSpace(' ');
    assert forall k :: 0 <= k < |ws| ==> ' ' !in ws[k];
    JoinEnds(ws, ' ');
    StripUnpadded(Join(ws, ' '));
    SplitJoin(ws, ' ');
  }

  predicate IsDigit(c: char)
  {
    '0' <= c <= '9'
  }

  function DigitValue(c: char): (d: nat)
    requires IsDigit(c)
    ensures d <= 9
  {
    c as int - '0' as int
  }

  function DigitChar(d: nat): (c: char)
    requires d <= 9
    ensures IsDigit(c) && DigitValue(c) == d
  {
    ('0' as int + d) as char
  }

  predicate AllDigits(s: string)
  {
    forall k :: 0 <= k < |s| ==> IsDigit(s[k])
  }

  /** The value of a string of decimal digits, most significant first. */
  function DigitsValue(s: string): (v: nat)
    requires AllDigits(s)
  {
    if s == [] then 0 else DigitsValue(s[..|s| - 1]) * 10 + DigitValue(s[|s| - 1])
  }

  /** `int(text)` for decimal literals: surrounding whitespace and one sign
      are accepted, at least one digit is required; anything else raises
      ValueError (`None`). */
  function ParseInt(text: string): (r: Option<int>)
  {
    var t := Strip(text);
    if t == [] then None
    else
      var negative := t[0] == '-';
      var digits := if t[0] == '-' || t[0] == '+' then t[1..] else t;
      if digits == [] || !AllDigits(digits) then None
      else Some(if negative then -(DigitsValue(digits) as int) else DigitsValue(digits))
  }

  /** `str(n)` for a natural number. */
  function ShowNat(n: nat): (s: string)
    ensures s != [] && AllDigits(s)
  {
    if n < 10 then [DigitChar(n)] else ShowNat(n / 10) + [DigitChar(n % 10)]
  }

  /** `str(n)` for an integer. */
  function ShowInt(n: int): string
  {
    if n < 0 then ['-'] + ShowNat(-n) else ShowNat(n)
  }

  /** `str(n)` is a minus sign at most, then digits, and ends in a digit. */
  lemma ShowIntChars(n: int)
    ensures var s := ShowInt(n);
            s != [] && IsDigit(s[|s| - 1]) && forall k :: 0 <= k < |s| ==> s[k] == '-' || IsDigit(s[k])
  {
    var m: nat := if n < 0 then -n else n;
    var digits := ShowNat(m);
    if n < 0 {
      assert forall k :: 1 <= k < |ShowInt(n)| ==> ShowInt(n)[k] == digits[k - 1];
    }
  }

  /** `str(n)` is a token. */
  lemma ShowIntToken(n: int)
    ensures Token(ShowInt(n))
  {
    ShowIntChars(n);
  }

  lemma {:induction false} DigitsOfShowNat(n: nat)
    ensures DigitsValue(ShowNat(n)) == n
  {
    if n >= 10 {
      var s := ShowNat(n);
      assert s[..|s| - 1] == ShowNat(n / 10);
      DigitsOfShowNat(n / 10);
    }
  }

  /** Printing an integer and parsing it back gives the integer. */
  lemma ParseShow(n: int)
    ensures ParseInt(ShowInt(n)) == Some(n)
  {
    var s := ShowInt(n);
    var m: nat := if n < 0 then -n else n;
    var digits := ShowNat(m);
    assert IsDigit(digits[0]) && IsDigit(digits[|digits| - 1]);
    assert s[|s| - 1] == digits[|digits| - 1];
    StripUnpadded(s);
    DigitsOfShowNat(m);
    if n < 0 {
      assert s[0] == '-' && s[1..] == digits;
    } else {
      assert s == digits && s[0] != '-' && s[0] != '+';
    }
  }
}
