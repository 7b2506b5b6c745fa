/** The Python string operations ZonalStats.py relies on, written out:
    `str.find`, `str.split(sep)`, `str.strip(chars)`, `os.path.splitext`,
    `str(int)` and `int(str)`. Each comes with its partner: split with join,
    int() with str(), strip with the padding it removes. */
module PyText {
  import opened Outcome

  /** `sep` occurs in `s` starting at index `i`. */
  predicate OccursAt(s: string, sep: string, i: nat)
  {
    i + |sep| <= |s| && s[i..i + |sep|] == sep
  }

  /** `sep` occurs nowhere in `s`. */
  ghost predicate NotIn(s: string, sep: string)
  {
    forall i: nat :: !OccursAt(s, sep, i)
  }

  /** `str.find(sep, from)`: the first index at or after `from` where `sep` starts. */
  function FindFrom(s: string, sep: string, from: nat): (r: Option<nat>)
    requires |sep| > 0
    decreases |s| - from
    ensures r.Some? ==> from <= r.value && OccursAt(s, sep, r.value)
    ensures r.Some? ==> forall j: nat :: from <= j < r.value ==> !OccursAt(s, sep, j)
    ensures r.None? ==> forall j: nat :: from <= j ==> !OccursAt(s, sep, j)
  {
    if from + |sep| > |s| then None
    else if s[from..from + |sep|] == sep then Some(from)
    else FindFrom(s, sep, from + 1)
  }

  function Find(s: string, sep: string): (r: Option<nat>)
    requires |sep| > 0
  {
    FindFrom(s, sep, 0)
  }

  /** The first occurrence determines `Find`. */
  lemma FindIs(s: string, sep: string, i: nat)
    requires |sep| > 0
    requires OccursAt(s, sep, i)
    requires forall j: nat :: j < i ==> !OccursAt(s, sep, j)
    ensures Find(s, sep) == Some(i)
  {
  }

  lemma FindNone(s: string, sep: string)
    requires |sep| > 0 && NotIn(s, sep)
    ensures Find(s, sep) == None
  {
  }

  /** `s.split(sep)`: cut at every non-overlapping occurrence, scanning left to right. */
  function Split(s: string, sep: string): (pieces: seq<string>)
    requires |sep| > 0
    decreases |s|
    ensures |pieces| >= 1
  {
    match Find(s, sep)
    case None => [s]
    case Some(i) => [s[..i]] + Split(s[i + |sep|..], sep)
  }

  /** `sep.join(pieces)`. */
  function Join(pieces: seq<string>, sep: string): string
  {
    if |pieces| == 0 then ""
    else if |pieces| == 1 then pieces[0]
    else pieces[0] + sep + Join(pieces[1..], sep)
  }

  /** Joining the pieces of a split gives back the original text. */
  lemma {:induction false} SplitJoin(s: string, sep: string)
    requires |sep| > 0
    decreases |s|
    ensures Join(Split(s, sep), sep) == s
  {
    match Find(s, sep)
    case None =>
    case Some(i) =>
      var rest := s[i + |sep|..];
      assert Split(s, sep) == [s[..i]] + Split(rest, sep);
      SplitJoin(rest, sep);
      CutAround(s, sep, i);
      JoinCons(s[..i], Split(rest, sep), sep);
  }

  /** Text with an occurrence at `i` is the part before, the separator and the part after. */
  lemma CutAround(s: string, sep: string, i: nat)
    requires OccursAt(s, sep, i)
    ensures s == s[..i] + sep + s[i + |sep|..]
  {
    assert s == s[..i] + s[i..i + |sep|] + s[i + |sep|..];
  }

  lemma JoinCons(head: string, tail: seq<string>, sep: string)
    requires |tail| > 0
    ensures Join([head] + tail, sep) == head + sep + Join(tail, sep)
  {
    assert ([head] + tail)[1..] == tail;
  }

  /** No piece of a split contains the separator. */
  lemma {:induction false} SplitPiecesFree(s: string, sep: string)
    requires |sep| > 0
    decreases |s|
    ensures forall k :: 0 <= k < |Split(s, sep)| ==> NotIn(Split(s, sep)[k], sep)
  {
    match Find(s, sep)
    case None =>
    case Some(i) =>
      var rest := s[i + |sep|..];
      SplitPiecesFree(rest, sep);
      forall j: nat ensures !OccursAt(s[..i], sep, j) {
        if j + |sep| <= i {
          assert s[..i][j..j + |sep|] == s[j..j + |sep|];
          assert !OccursAt(s, sep, j);
        }
      }
      assert Split(s, sep) == [s[..i]] + Split(rest, sep);
  }

  /** The split has a single piece exactly when the separator never occurs. */
  lemma SplitSingle(s: string, sep: string)
    requires |sep| > 0
    ensures |Split(s, sep)| == 1 <==> NotIn(s, sep)
    ensures NotIn(s, sep) ==> Split(s, sep) == [s]
  {
    match Find(s, sep)
    case None =>
    case Some(i) =>
      assert |Split(s, sep)| == 1 + |Split(s[i + |sep|..], sep)|;
  }

  /** When the first occurrence sits right after `a`, the first piece is `a`. */
  lemma SplitAtFirst(a: string, sep: string, b: string)
    requires |sep| > 0
    requires NotIn(a + sep[..|sep| - 1], sep)
    ensures Split(a + sep + b, sep) == [a] + Split(b, sep)
  {
    var s := a + sep + b;
    assert s[|a|..|a| + |sep|] == sep;
    var p := a + sep[..|sep| - 1];
    assert s[..|p|] == p;
    forall j: nat | j < |a| ensures !OccursAt(s, sep, j) {
      assert p[j..j + |sep|] == s[j..j + |sep|];
      assert !OccursAt(p, sep, j);
    }
    FindIs(s, sep, |a|);
    assert s[..|a|] == a;
    assert s[|a| + |sep|..] == b;
  }

  /** When no occurrence can start inside `a`, the first piece of `a + b`
      is `a` followed by the first piece of `b`. */
  lemma {:induction false} SplitFirstAfter(a: string, b: string, sep: string)
    requires |sep| > 0
    requires forall j: nat :: j < |a| ==> !OccursAt(a + b, sep, j)
    ensures Split(a + b, sep)[0] == a + Split(b, sep)[0]
  {
    var s := a + b;
    match Find(b, sep)
    case None =>
      forall j: nat ensures !OccursAt(s, sep, j) {
        if j >= |a| && j + |sep| <= |s| {
          assert b[j - |a|..j - |a| + |sep|] == s[j..j + |sep|];
          assert !OccursAt(b, sep, j - |a|);
        }
      }
      FindNone(s, sep);
      assert s == a + b;
    case Some(i) =>
      forall j: nat | j < |a| + i ensures !OccursAt(s, sep, j) {
        if j >= |a| && j + |sep| <= |s| {
          assert b[j - |a|..j - |a| + |sep|] == s[j..j + |sep|];
          assert !OccursAt(b, sep, j - |a|);
        }
      }
      assert OccursAt(b, sep, i);
      assert s[|a| + i..|a| + i + |sep|] == b[i..i + |sep|];
      FindIs(s, sep, |a| + i);
      assert s[..|a| + i] == a + b[..i];
  }

  /** The first piece of a split is a prefix of the text. */
  lemma SplitFirstIsPrefix(s: string, sep: string)
    requires |sep| > 0
    ensures |Split(s, sep)[0]| <= |s| && s[..|Split(s, sep)[0]|] == Split(s, sep)[0]
  {
  }

  lemma CharNotIn(s: string, c: char)
    requires c !in s
    ensures NotIn(s, [c])
  {
    forall j: nat ensures !OccursAt(s, [c], j) {
      if j < |s| { assert s[j..j + 1][0] == s[j]; }
    }
  }

  /** No occurrence can start inside text that lacks the separator's first character. */
  lemma LeadAbsent(a: string, b: string, sep: string)
    requires |sep| > 0 && sep[0] !in a
    ensures forall j: nat :: j < |a| ==> !OccursAt(a + b, sep, j)
  {
    var s := a + b;
    forall j: nat | j < |a| ensures !OccursAt(s, sep, j) {
      if j + |sep| <= |s| {
        assert s[j..j + |sep|][0] == a[j];
      }
    }
  }

  /** No occurrence of a separator free of newlines can start in a line of
      text that ends with a newline, unless it lies inside that line. */
  lemma LineAbsent(w: string, rest: string, sep: string)
    requires |sep| > 0 && '\n' !in sep && NotIn(w, sep)
    ensures forall j: nat :: j < |w + "\n"| ==> !OccursAt(w + "\n" + rest, sep, j)
  {
    var s := w + "\n" + rest;
    forall j: nat | j < |w| + 1 ensures !OccursAt(s, sep, j) {
      if j + |sep| <= |w| {
        assert s[j..j + |sep|] == w[j..j + |sep|];
        assert !OccursAt(w, sep, j);
      } else if j + |sep| <= |s| {
        assert s[j..j + |sep|][|w| - j] == s[|w|];
      }
    }
  }

  /** The first occurrence of `sep` in `a + sep` being the appended one is
      what `SplitAtFirst` needs. */
  lemma FirstAtEnd(a: string, sep: string)
    requires |sep| > 0 && Find(a + sep, sep) == Some(|a|)
    ensures NotIn(a + sep[..|sep| - 1], sep)
  {
    var p := a + sep[..|sep| - 1];
    var s := a + sep;
    forall j: nat ensures !OccursAt(p, sep, j) {
      if j + |sep| <= |p| {
        assert p[j..j + |sep|] == s[j..j + |sep|];
        assert !OccursAt(s, sep, j);
      }
    }
  }

  /** Splitting on a one-character separator stops right before it. */
  lemma SplitStopsAt(a: string, b: string, c: char)
    requires c !in a && (b == [] || b[0] == c)
    ensures Split(a + b, [c])[0] == a
  {
    CharNotIn(a, c);
    if b == [] {
      assert a + b == a;
      SplitSingle(a, [c]);
    } else {
      assert a + [c][..0] == a;
      assert a + b == a + [c] + b[1..];
      SplitAtFirst(a, [c], b[1..]);
    }
  }

  /** Splitting on a one-character separator distributes over a joint made of it. */
  lemma {:induction false} SplitCharConcat(a: string, c: char, b: string)
    decreases |a|
    ensures Split(a + [c] + b, [c]) == Split(a, [c]) + Split(b, [c])
  {
    var s := a + [c] + b;
    match Find(a, [c])
    case None =>
      SplitCharAfterPlain(a, c, b);
    case Some(i) =>
      FindCharConcat(a, c, b, i);
      SplitCharConcat(a[i + 1..], c, b);
      assert Split(s, [c]) == [a[..i]] + Split(a[i + 1..] + [c] + b, [c]);
  }

  /** A piece free of the separator stays whole in front of a joint. */
  lemma SplitCharAfterPlain(a: string, c: char, b: string)
    requires Find(a, [c]).None?
    ensures Split(a, [c]) == [a]
    ensures Split(a + [c] + b, [c]) == [a] + Split(b, [c])
  {
    assert NotIn(a + [c][..0], [c]) by {
      assert a + [c][..0] == a;
    }
    SplitAtFirst(a, [c], b);
    SplitSingle(a, [c]);
  }

  /** The first separator of `a` is also the first of `a + [c] + b`, with the same pieces around it. */
  lemma FindCharConcat(a: string, c: char, b: string, i: nat)
    requires Find(a, [c]) == Some(i)
    ensures i < |a|
    ensures Find(a + [c] + b, [c]) == Some(i)
    ensures (a + [c] + b)[..i] == a[..i]
    ensures (a + [c] + b)[i + 1..] == a[i + 1..] + [c] + b
  {
    var s := a + [c] + b;
    assert s[i..i + 1] == a[i..i + 1];
    forall j: nat | j < i ensures !OccursAt(s, [c], j) {
      assert !OccursAt(a, [c], j);
      assert s[j..j + 1] == a[j..j + 1];
    }
    FindIs(s, [c], i);
    assert s[..i] == a[..i];
    assert s[i + 1..] == a[i + 1..] + [c] + b;
  }

  /** `s.strip(chars)` at the left end. */
  function TrimLeft(s: string, chars: set<char>): (r: string)
    ensures |r| <= |s| && r == s[|s| - |r|..]
    ensures |r| > 0 ==> r[0] !in chars
    ensures forall k :: 0 <= k < |s| - |r| ==> s[k] in chars
  {
    if |s| > 0 && s[0] in chars then TrimLeft(s[1..], chars) else s
  }

  /** `s.strip(chars)` at the right end. */
  function TrimRight(s: string, chars: set<char>): (r: string)
    ensures |r| <= |s| && r == s[..|r|]
    ensures |r| > 0 ==> r[|r| - 1] !in chars
    ensures forall k :: |r| <= k < |s| ==> s[k] in chars
  {
    if |s| > 0 && s[|s| - 1] in chars then TrimRight(s[..|s| - 1], chars) else s
  }

  /** `s.strip(chars)`. */
  function Strip(s: string, chars: set<char>): (r: string)
    ensures |r| <= |s|
    ensures |r| > 0 ==> r[0] !in chars && r[|r| - 1] !in chars
  {
    TrimRight(TrimLeft(s, chars), chars)
  }

  lemma {:induction false} TrimLeftPadded(x: string, t: string, chars: set<char>)
    requires forall k :: 0 <= k < |x| ==> x[k] in chars
    requires |t| > 0 ==> t[0] !in chars
    decreases |x|
    ensures TrimLeft(x + t, chars) == t
  {
    if |x| > 0 {
      assert (x + t)[1..] == x[1..] + t;
      TrimLeftPadded(x[1..], t, chars);
    }
  }

  lemma {:induction false} TrimRightPadded(t: string, y: string, chars: set<char>)
    requires forall k :: 0 <= k < |y| ==> y[k] in chars
    requires |t| > 0 ==> t[|t| - 1] !in chars
    decreases |y|
    ensures TrimRight(t + y, chars) == t
  {
    if |y| > 0 {
      assert (t + y)[..|t + y| - 1] == t + y[..|y| - 1];
      TrimRightPadded(t, y[..|y| - 1], chars);
    }
  }

  /** Stripping removes exactly the padding around a text whose ends are not stripped. */
  lemma StripPadded(x: string, t: string, y: string, chars: set<char>)
    requires forall k :: 0 <= k < |x| ==> x[k] in chars
    requires forall k :: 0 <= k < |y| ==> y[k] in chars
    requires |t| > 0 ==> t[0] !in chars && t[|t| - 1] !in chars
    ensures Strip(x + t + y, chars) == t
  {
    assert x + t + y == x + (t + y);
    if |t| == 0 {
      assert t + y == y;
      if |y| > 0 {
        TrimLeftPadded(x + y, "", chars);
        assert x + y + "" == x + y;
      } else {
        TrimLeftPadded(x, "", chars);
        assert x + "" == x;
      }
      assert TrimLeft(x + t + y, chars) == "";
    } else {
      TrimLeftPadded(x, t + y, chars);
      TrimRightPadded(t, y, chars);
    }
  }

  /** Index of the last `c` in `s`, or -1 (`str.rfind`). */
  function LastIndexOf(s: string, c: char): (r: int)
    ensures -1 <= r < |s|
    ensures r >= 0 ==> s[r] == c
    ensures forall k :: r < k < |s| ==> s[k] != c
  {
    if |s| == 0 then -1
    else if s[|s| - 1] == c then |s| - 1
    else LastIndexOf(s[..|s| - 1], c)
  }

  /** `os.path.splitext(p)[0]`: drop the last extension, unless the last
      dot only belongs to a run of leading dots of the final path component. */
  function Stem(p: string): (r: string)
    ensures r == p || (|r| < |p| && r == p[..|r|] && p[|r|] == '.')
    ensures forall k :: |r| <= k < |p| ==> p[k] != '/'
  {
    var sepIndex := LastIndexOf(p, '/');
    var dotIndex := LastIndexOf(p, '.');
    if dotIndex > sepIndex && exists k :: sepIndex + 1 <= k < dotIndex && p[k] != '.'
    then p[..dotIndex]
    else p
  }

  /** A plain file name loses exactly its final extension. */
  lemma StemDropsExtension(base: string, ext: string)
    requires '/' !in base && '/' !in ext && '.' !in ext
    requires exists k :: 0 <= k < |base| && base[k] != '.'
    ensures Stem(base + "." + ext) == base
  {
    var p := base + "." + ext;
    assert p[|base|] == '.';
    assert LastIndexOf(p, '.') == |base|;
    assert LastIndexOf(p, '/') == -1;
    var k :| 0 <= k < |base| && base[k] != '.';
    assert p[k] == base[k];
    assert p[..|base|] == base;
  }

  /** The ASCII characters Python's int() strips: space, tab, line feed, vertical tab,
      form feed and carriage return. The separators 28 .. 31, which str.isspace
      accepts, are not among them. */
  const Whitespace: set<char> := {' ', '\t', '\n', '\r', 11 as char, 12 as char}

  predicate IsSpace(c: char)
  {
    c == ' ' || c == '\t' || c == '\n' || c == '\r' || 11 as char <= c <= 12 as char
  }

  lemma WhitespaceIsSpace(c: char)
    ensures c in Whitespace <==> IsSpace(c)
  {
  }

  predicate IsDigit(c: char)
  {
    '0' <= c <= '9'
  }

  function DigitValue(c: char): (d: nat)
    requires IsDigit(c)
    ensures d < 10
  {
    (c as int) - ('0' as int)
  }

  function DigitChar(d: nat): (c: char)
    requires d < 10
    ensures IsDigit(c) && DigitValue(c) == d
  {
    (('0' as int) + d) as char
  }

  /** Python's decimal literal body: digits, with single underscores between digits. */
  predicate DigitGroups(s: string)
  {
    && |s| > 0
    && IsDigit(s[0])
    && IsDigit(s[|s| - 1])
    && (forall k :: 0 <= k < |s| ==> IsDigit(s[k]) || s[k] == '_')
    && (forall k :: 0 <= k < |s| - 1 ==> s[k] == '_' ==> s[k + 1] != '_')
  }

  /** The value of a digit string, underscores ignored. */
  function DigitsValue(s: string): nat
    requires forall k :: 0 <= k < |s| ==> IsDigit(s[k]) || s[k] == '_'
  {
    if |s| == 0 then 0
    else if s[|s| - 1] == '_' then DigitsValue(s[..|s| - 1])
    else DigitsValue(s[..|s| - 1]) * 10 + DigitValue(s[|s| - 1])
  }

  /** `int(s)` for base 10: surrounding whitespace, an optional sign, digit groups. */
  function ParseInt(s: string): Option<int>
  {
    ParseStripped(Strip(s, Whitespace))
  }

  /** The sign-and-digits part of int(), once the whitespace is gone. */
  function ParseStripped(t: string): Option<int>
  {
    if |t| > 0 && (t[0] == '-' || t[0] == '+') then
      if DigitGroups(t[1..]) then
        var magnitude: int := DigitsValue(t[1..]);
        Some(if t[0] == '-' then -magnitude else magnitude)
      else None
    else if DigitGroups(t) then Some(DigitsValue(t))
    else None
  }

  /** int() rejects a text without surrounding whitespace that has a
      character other than an ASCII digit or an underscore after its first one. */
  lemma ParseRejects(s: string, k: nat)
    requires 1 <= k < |s| && !IsDigit(s[k]) && s[k] != '_'
    requires s[0] !in Whitespace && s[|s| - 1] !in Whitespace
    ensures ParseInt(s) == None
  {
    StripPadded("", s, "", Whitespace);
    assert "" + s + "" == s;
    StrippedRejects(s, k);
  }

  /** int() does not strip the separator characters 28 .. 31: `int("5\x1c")` raises. */
  lemma ParseRejectsSeparator(n: int, c: char)
    requires 28 as char <= c <= 31 as char
    ensures ParseInt(Show(n) + [c]) == None
  {
    var s := Show(n) + [c];
    assert s[0] == Show(n)[0];
    assert s[|s| - 1] == c;
    ParseRejects(s, |Show(n)|);
  }

  lemma StrippedRejects(t: string, k: nat)
    requires 1 <= k < |t| && !IsDigit(t[k]) && t[k] != '_'
    ensures ParseStripped(t) == None
  {
    assert t[1..][k - 1] == t[k];
    assert !DigitGroups(t);
    assert !DigitGroups(t[1..]);
  }

  /** `str(n)` for a non-negative integer. */
  function ShowNat(n: nat): (s: string)
    ensures |s| > 0 && forall k :: 0 <= k < |s| ==> IsDigit(s[k])
  {
    if n < 10 then [DigitChar(n)] else ShowNat(n / 10) + [DigitChar(n % 10)]
  }

  /** `str(n)`. */
  function Show(n: int): (s: string)
    ensures |s| > 0 && IsDigit(s[|s| - 1])
    ensures forall k :: 0 <= k < |s| ==> IsDigit(s[k]) || (k == 0 && s[k] == '-')
  {
    if n < 0 then "-" + ShowNat(-n) else ShowNat(n)
  }

  lemma {:induction false} ShowNatValue(n: nat)
    ensures DigitsValue(ShowNat(n)) == n
  {
    if n >= 10 {
      ShowNatValue(n / 10);
      var s := ShowNat(n);
      assert s[..|s| - 1] == ShowNat(n / 10);
    }
  }

  lemma ParseStrippedShow(n: int)
    ensures ParseStripped(Show(n)) == Some(n)
  {
    var s := Show(n);
    if n < 0 {
      ShowNatValue(-n);
      assert s[1..] == ShowNat(-n);
      assert DigitGroups(s[1..]);
    } else {
      ShowNatValue(n);
      assert DigitGroups(s);
    }
  }

  /** int() reads back what str() writes, also with trailing whitespace
      (the form the nodata word takes in a gdal.Info report). */
  lemma ParseShow(n: int, pad: string)
    requires forall k :: 0 <= k < |pad| ==> pad[k] in Whitespace
    ensures ParseInt(Show(n) + pad) == Some(n)
  {
    var s := Show(n);
    WhitespaceIsSpace(s[0]);
    WhitespaceIsSpace(s[|s| - 1]);
    StripPadded("", s, pad, Whitespace);
    assert "" + s + pad == s + pad;
    ParseStrippedShow(n);
  }

  /** int() reads back what str() writes with whitespace on both sides. */
  lemma ParseSurrounded(n: int, lead: string, pad: string)
    requires forall k :: 0 <= k < |lead| ==> lead[k] in Whitespace
    requires forall k :: 0 <= k < |pad| ==> pad[k] in Whitespace
    ensures ParseInt(lead + Show(n) + pad) == Some(n)
  {
    var s := Show(n);
    WhitespaceIsSpace(s[0]);
    WhitespaceIsSpace(s[|s| - 1]);
    StripPadded(lead, s, pad, Whitespace);
    ParseStrippedShow(n);
  }
}
