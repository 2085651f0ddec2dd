/** String primitives with the meaning ECMAScript gives them: `trim`, the
    `\s` character class, `toLowerCase`, `includes`, `split` on one
    character, and the default `Array.prototype.sort` order, which compares
    strings by UTF-16 code units. */
module Text {

  /** The ECMAScript WhiteSpace and LineTerminator characters: exactly the
      characters `String.prototype.trim` removes and the regular expression
      class `\s` matches. */
  predicate IsSpace(c: char) {
    || c == '\t' || c == '\n' || c == '\U{000B}' || c == '\U{000C}' || c == '\r'
    || c == ' ' || c == '\U{00A0}' || c == '\U{1680}'
    || ('\U{2000}' <= c <= '\U{200A}')
    || c == '\U{2028}' || c == '\U{2029}' || c == '\U{202F}' || c == '\U{205F}'
    || c == '\U{3000}' || c == '\U{FEFF}'
  }

  /** Every character of `s` is white space. */
  predicate AllSpace(s: string) {
    forall k | 0 <= k < |s| :: IsSpace(s[k])
  }

  /** Neither end of `s` is white space. */
  predicate IsTrimmed(s: string) {
    |s| == 0 || (!IsSpace(s[0]) && !IsSpace(s[|s| - 1]))
  }

  /** The number of white-space characters that start `s`. */
  function LeadingSpace(s: string): (n: nat)
    ensures n <= |s|
    ensures forall k | 0 <= k < n :: IsSpace(s[k])
    ensures n < |s| ==> !IsSpace(s[n])
    decreases |s|
  {
    if |s| > 0 && IsSpace(s[0]) then 1 + LeadingSpace(s[1..]) else 0
  }

  /** The length of `s` without the white space that ends it. */
  function TrailingStart(s: string): (n: nat)
    ensures n <= |s|
    ensures forall k | n <= k < |s| :: IsSpace(s[k])
    ensures n > 0 ==> !IsSpace(s[n - 1])
    decreases |s|
  {
    if |s| > 0 && IsSpace(s[|s| - 1]) then TrailingStart(s[..|s| - 1]) else |s|
  }

  /** `String.prototype.trim`: the slice of `s` between its leading and its
      trailing white space. It is empty exactly when `s` is all white space,
      and otherwise neither starts nor ends with white space. */
  function Trim(s: string): (r: string)
    ensures IsTrimmed(r)
    ensures |r| == 0 <==> AllSpace(s)
    ensures |r| > 0 ==> r == s[LeadingSpace(s)..TrailingStart(s)]
  {
    var i, j := LeadingSpace(s), TrailingStart(s);
    if j <= i then
      assert AllSpace(s) by {
        assert forall k | 0 <= k < |s| :: IsSpace(s[k]);
      }
      ""
    else
      s[i..j]
  }

  /** A string that is empty once trimmed (see `Trim`): JavaScript treats
      `s.trim()` of such a string as false. */
  predicate IsBlank(s: string) {
    AllSpace(s)
  }

  /** A trimmed string trims to itself. */
  lemma {:induction false} TrimOfTrimmed(s: string)
    requires IsTrimmed(s)
    ensures Trim(s) == s
  {
    if |s| > 0 {
      assert LeadingSpace(s) == 0;
      assert TrailingStart(s) == |s|;
    }
  }

  /** Trimming is idempotent. */
  lemma {:induction false} TrimIdempotent(s: string)
    ensures Trim(Trim(s)) == Trim(s)
  {
    TrimOfTrimmed(Trim(s));
  }

  /** A character absent from `s` is absent from its trimmed form. */
  lemma {:induction false} TrimKeepsAbsence(s: string, c: char)
    requires c !in s
    ensures c !in Trim(s)
  {
    var r := Trim(s);
    if |r| > 0 {
      var i := LeadingSpace(s);
      assert forall k | 0 <= k < |r| :: r[k] == s[i + k] && s[i + k] != c;
    }
  }

  /** `toLowerCase` on one character; only the ASCII capitals have a lower
      case here. */
  function LowerChar(c: char): char {
    if 'A' <= c <= 'Z' then (c as int + 32) as char else c
  }

  /** `String.prototype.toLowerCase`, character by character. */
  function ToLower(s: string): (r: string)
    ensures |r| == |s|
    ensures forall k | 0 <= k < |s| :: r[k] == LowerChar(s[k])
  {
    seq(|s|, k requires 0 <= k < |s| => LowerChar(s[k]))
  }

  /** Lowering keeps a trimmed string trimmed. */
  lemma {:induction false} LowerKeepsTrimmed(s: string)
    requires IsTrimmed(s)
    ensures IsTrimmed(ToLower(s))
  {
    if |s| > 0 {
      LowerCharSpace(s[0]);
      LowerCharSpace(s[|s| - 1]);
    }
  }

  /** Lowering a character never changes whether it is white space. */
  lemma LowerCharSpace(c: char)
    ensures IsSpace(LowerChar(c)) == IsSpace(c)
  {
  }

  lemma {:induction false} LeadingSpaceLower(s: string)
    ensures LeadingSpace(ToLower(s)) == LeadingSpace(s)
    decreases |s|
  {
    if |s| > 0 {
      LowerCharSpace(s[0]);
      assert ToLower(s)[1..] == ToLower(s[1..]);
      LeadingSpaceLower(s[1..]);
    }
  }

  lemma {:induction false} TrailingStartLower(s: string)
    ensures TrailingStart(ToLower(s)) == TrailingStart(s)
    decreases |s|
  {
    if |s| > 0 {
      LowerCharSpace(s[|s| - 1]);
      assert ToLower(s)[..|s| - 1] == ToLower(s[..|s| - 1]);
      TrailingStartLower(s[..|s| - 1]);
    }
  }

  /** Trimming and lowering commute, so `s.trim().toLowerCase()` is also
      `s.toLowerCase().trim()`. */
  lemma {:induction false} TrimLowerCommute(s: string)
    ensures ToLower(Trim(s)) == Trim(ToLower(s))
  {
    AllSpaceLower(s);
    if !AllSpace(s) {
      LeadingSpaceLower(s);
      TrailingStartLower(s);
      SliceLower(s, LeadingSpace(s), TrailingStart(s));
    }
  }

  /** Lowering a slice is slicing the lowered string. */
  lemma {:induction false} SliceLower(s: string, i: nat, j: nat)
    requires i <= j <= |s|
    ensures ToLower(s[i..j]) == ToLower(s)[i..j]
  {
    var a, b := ToLower(s[i..j]), ToLower(s)[i..j];
    assert forall k | 0 <= k < |a| :: a[k] == LowerChar(s[i + k]) == b[k];
  }

  /** Lowering keeps a string all white space, or not. */
  lemma {:induction false} AllSpaceLower(s: string)
    ensures AllSpace(ToLower(s)) == AllSpace(s)
  {
    forall k | 0 <= k < |s| {
      LowerCharSpace(s[k]);
    }
  }

  /** A string without capitals is its own lower case. */
  lemma ToLowerOfLower(s: string)
    requires forall k | 0 <= k < |s| :: !('A' <= s[k] <= 'Z')
    ensures ToLower(s) == s
  {
  }

  /** `String.prototype.includes`: `t` occurs in `s` as a contiguous slice. */
  predicate Contains(s: string, t: string) {
    exists i | 0 <= i <= |s| - |t| :: OccursAt(s, t, i)
  }

  /** `t` occurs in `s` starting at position `i`. */
  predicate OccursAt(s: string, t: string, i: nat)
    requires i + |t| <= |s|
  {
    s[i..i + |t|] == t
  }

  /** Number of occurrences of `c` in `s`. */
  function Count(s: string, c: char): nat {
    multiset(s)[c]
  }

  /** `String.prototype.split` with a one-character separator: the pieces of
      `s` between occurrences of `sep`. */
  function Split(s: string, sep: char): (r: seq<string>)
    ensures |r| == 1 + Count(s, sep)
    ensures forall k | 0 <= k < |r| :: sep !in r[k]
    decreases |s|
  {
    if |s| == 0 then [""]
    else
      var rest := Split(s[1..], sep);
      assert s == [s[0]] + s[1..];
      if s[0] == sep then [""] + rest
      else [[s[0]] + rest[0]] + rest[1..]
  }

  /** `Array.prototype.join` with a one-character separator. */
  function Join(parts: seq<string>, sep: char): string
    decreases |parts|
  {
    if |parts| == 0 then ""
    else if |parts| == 1 then parts[0]
    else parts[0] + [sep] + Join(parts[1..], sep)
  }

  /** Joining after one more part appends a separator and that part. */
  lemma {:induction false} JoinSnoc(parts: seq<string>, last: string, sep: char)
    requires |parts| > 0
    ensures Join(parts + [last], sep) == Join(parts, sep) + [sep] + last
    decreases |parts|
  {
    if |parts| > 1 {
      assert (parts + [last])[1..] == parts[1..] + [last];
      JoinSnoc(parts[1..], last, sep);
    } else {
      assert parts + [last] == [parts[0], last];
    }
  }

  /** Splitting a string with a given first character: a separator starts
      a new piece, anything else goes to the front of the first piece. */
  lemma {:induction false} SplitCons(c: char, t: string, sep: char)
    ensures var rest := Split(t, sep);
      Split([c] + t, sep) == if c == sep then [""] + rest else [[c] + rest[0]] + rest[1..]
  {
    assert ([c] + t)[1..] == t;
  }

  /** Splitting and re-joining gives back the text. */
  lemma {:induction false} JoinSplit(s: string, sep: char)
    ensures Join(Split(s, sep), sep) == s
    decreases |s|
  {
    if |s| > 0 {
      var c, t := s[0], s[1..];
      assert s == [c] + t;
      JoinSplit(t, sep);
      SplitCons(c, t, sep);
      var rest := Split(t, sep);
      if c == sep {
        JoinCons("", rest, sep);
        assert "" + [sep] + t == [c] + t;
      } else {
        JoinPrepend(c, rest, sep);
      }
    }
  }

  /** Putting a character in front of the first part puts it in front of
      the joined text. */
  lemma {:induction false} JoinPrepend(c: char, parts: seq<string>, sep: char)
    requires |parts| > 0
    ensures Join([[c] + parts[0]] + parts[1..], sep) == [c] + Join(parts, sep)
  {
    var p0, tl := parts[0], parts[1..];
    assert parts == [p0] + tl;
    JoinCons([c] + p0, tl, sep);
    JoinCons(p0, tl, sep);
    if |tl| > 0 {
      var j := Join(tl, sep);
      assert ([c] + p0) + [sep] + j == [c] + (p0 + [sep] + j);
    }
  }

  /** Joining a part ahead of others. */
  lemma {:induction false} JoinCons(p: string, parts: seq<string>, sep: char)
    ensures Join([p] + parts, sep) == if |parts| == 0 then p else p + [sep] + Join(parts, sep)
  {
    assert ([p] + parts)[1..] == parts;
  }

  /** A piece without the separator splits to itself; one with a separator
      after it starts the split of what follows. */
  lemma {:induction false} SplitPrefix(a: string, b: string, sep: char)
    requires sep !in a
    ensures Split(a + [sep] + b, sep) == [a] + Split(b, sep)
    decreases |a|
  {
    if |a| == 0 {
      assert a + [sep] + b == [sep] + b;
      SplitCons(sep, b, sep);
    } else {
      var c, t := a[0], a[1..];
      assert a == [c] + t;
      assert a + [sep] + b == [c] + (t + [sep] + b);
      SplitPrefix(t, b, sep);
      SplitCons(c, t + [sep] + b, sep);
    }
  }

  lemma {:induction false} SplitNoSeparator(a: string, sep: char)
    requires sep !in a
    ensures Split(a, sep) == [a]
    decreases |a|
  {
    if |a| > 0 {
      SplitNoSeparator(a[1..], sep);
      assert a == [a[0]] + a[1..];
    }
  }

  /** Joining separator-free pieces and splitting again gives back the
      pieces. */
  lemma {:induction false} SplitJoin(parts: seq<string>, sep: char)
    requires |parts| > 0
    requires forall k | 0 <= k < |parts| :: sep !in parts[k]
    ensures Split(Join(parts, sep), sep) == parts
    decreases |parts|
  {
    if |parts| == 1 {
      SplitNoSeparator(parts[0], sep);
    } else {
      SplitJoin(parts[1..], sep);
      SplitPrefix(parts[0], Join(parts[1..], sep), sep);
    }
  }

  // ---------------------------------------------------------------------
  // Code-unit order (the default comparison of `Array.prototype.sort`)
  // ---------------------------------------------------------------------

  /** The first UTF-16 code unit of `c`: `c` itself inside the Basic
      Multilingual Plane, its high surrogate above it. */
  function HighUnit(c: char): int {
    if c as int < 0x1_0000 then c as int else 0xD800 + (c as int - 0x1_0000) / 0x400
  }

  /** `a` sorts before `b` when their UTF-16 encodings are compared unit by
      unit. Equal high units mean both are supplementary characters with the
      same high surrogate, and then the low surrogates order as the code
      points do. */
  predicate CharBefore(a: char, b: char) {
    HighUnit(a) < HighUnit(b) || (HighUnit(a) == HighUnit(b) && a < b)
  }

  /** The strict order the default sort uses: lexicographic on characters
      compared by `CharBefore`, a proper prefix sorting first. */
  predicate CodeUnitLess(a: string, b: string)
    decreases |a|
  {
    if |a| == 0 then |b| > 0
    else if |b| == 0 then false
    else if a[0] != b[0] then CharBefore(a[0], b[0])
    else CodeUnitLess(a[1..], b[1..])
  }

  lemma {:induction false} CodeUnitLessIrreflexive(a: string)
    ensures !CodeUnitLess(a, a)
    decreases |a|
  {
    if |a| > 0 {
      CodeUnitLessIrreflexive(a[1..]);
    }
  }

  lemma {:induction false} CodeUnitLessTransitive(a: string, b: string, c: string)
    requires CodeUnitLess(a, b) && CodeUnitLess(b, c)
    ensures CodeUnitLess(a, c)
    decreases |a|
  {
    if |a| > 0 && |b| > 0 && |c| > 0 && a[0] == b[0] && b[0] == c[0] {
      CodeUnitLessTransitive(a[1..], b[1..], c[1..]);
    }
  }

  /** Two strings are equal or ordered one way or the other. */
  lemma {:induction false} CodeUnitLessTotal(a: string, b: string)
    ensures a == b || CodeUnitLess(a, b) || CodeUnitLess(b, a)
    decreases |a|
  {
    if |a| > 0 && |b| > 0 && a[0] == b[0] {
      assert a == [a[0]] + a[1..] && b == [b[0]] + b[1..];
      CodeUnitLessTotal(a[1..], b[1..]);
    }
  }

  /** Never both ways round. */
  lemma {:induction false} CodeUnitLessAsymmetric(a: string, b: string)
    ensures !(CodeUnitLess(a, b) && CodeUnitLess(b, a))
    decreases |a|
  {
    if |a| > 0 && |b| > 0 && a[0] == b[0] {
      CodeUnitLessAsymmetric(a[1..], b[1..]);
    }
  }

  /** The UTF-16 encoding of one character, as code-unit values. */
  function Utf16Char(c: char): (u: seq<int>)
    ensures 1 <= |u| <= 2 && u[0] == HighUnit(c)
  {
    if c as int < 0x1_0000 then [c as int]
    else [0xD800 + (c as int - 0x1_0000) / 0x400, 0xDC00 + (c as int - 0x1_0000) % 0x400]
  }

  /** The UTF-16 encoding of a string: JavaScript's view of its contents. */
  function Utf16(s: string): seq<int>
    decreases |s|
  {
    if |s| == 0 then [] else Utf16Char(s[0]) + Utf16(s[1..])
  }

  /** Lexicographic order on code-unit sequences, a proper prefix first: the
      comparison ECMAScript specifies for `<` on strings. */
  predicate UnitsLess(a: seq<int>, b: seq<int>)
    decreases |a|
  {
    if |a| == 0 then |b| > 0
    else if |b| == 0 then false
    else if a[0] != b[0] then a[0] < b[0]
    else UnitsLess(a[1..], b[1..])
  }

  lemma {:induction false} UnitsLessCommonPrefix(p: seq<int>, x: seq<int>, y: seq<int>)
    ensures UnitsLess(p + x, p + y) == UnitsLess(x, y)
    decreases |p|
  {
    if |p| == 0 {
      assert p + x == x && p + y == y;
    } else {
      assert (p + x)[0] == p[0] == (p + y)[0];
      assert (p + x)[1..] == p[1..] + x;
      assert (p + y)[1..] == p[1..] + y;
      UnitsLessCommonPrefix(p[1..], x, y);
    }
  }

  /** Encodings of two different characters are decided within the encodings
      themselves, in the direction `CharBefore` says. */
  lemma {:induction false} DistinctCharsDecide(a: char, b: char, x: seq<int>, y: seq<int>)
    requires a != b
    ensures UnitsLess(Utf16Char(a) + x, Utf16Char(b) + y) == CharBefore(a, b)
  {
    var ua, ub := Utf16Char(a), Utf16Char(b);
    var p, q := ua + x, ub + y;
    assert p[0] == HighUnit(a) && q[0] == HighUnit(b);
    if HighUnit(a) == HighUnit(b) {
      // both are supplementary characters sharing a high surrogate
      assert a as int >= 0x1_0000 && b as int >= 0x1_0000;
      var da, db := a as int - 0x1_0000, b as int - 0x1_0000;
      assert da / 0x400 == db / 0x400;
      assert da == 0x400 * (da / 0x400) + da % 0x400;
      assert db == 0x400 * (db / 0x400) + db % 0x400;
      assert (da % 0x400 < db % 0x400) == (a < b);
      assert p[1] == 0xDC00 + da % 0x400 && q[1] == 0xDC00 + db % 0x400;
      assert p[1..][0] == p[1] && q[1..][0] == q[1];
    }
  }

  /** `CodeUnitLess` is exactly ECMAScript's comparison of the UTF-16
      encodings, which is what the default `sort` uses. */
  lemma {:induction false} CodeUnitLessIsUtf16Order(a: string, b: string)
    ensures CodeUnitLess(a, b) == UnitsLess(Utf16(a), Utf16(b))
    decreases |a|
  {
    if |a| == 0 {
      if |b| > 0 {
        assert |Utf16(b)| > 0;
      }
    } else if |b| == 0 {
      assert |Utf16(a)| > 0;
    } else if a[0] == b[0] {
      CodeUnitLessIsUtf16Order(a[1..], b[1..]);
      UnitsLessCommonPrefix(Utf16Char(a[0]), Utf16(a[1..]), Utf16(b[1..]));
    } else {
      DistinctCharsDecide(a[0], b[0], Utf16(a[1..]), Utf16(b[1..]));
    }
  }
}
