/** The string operations the import scripts lean on: Python's strip,
    substring tests, str.replace, str.split and the two regular-expression
    splits used for multi-valued cells, float() on decimal text and str() on
    whole numbers. */
module Text {
  import opened Wrappers

  /** The characters `str.isspace()` accepts: those `str.strip()`,
      `str.split()` and `float()` remove and that `\s` matches. Besides the
      ASCII blanks they are the separators U+001C to U+001F, the next line
      U+0085, the no-break space U+00A0 and the Unicode spaces. */
  const Whitespace: set<char> :=
    {' ', '\t', '\n', '\r', '\U{B}', '\U{C}',
     '\U{1C}', '\U{1D}', '\U{1E}', '\U{1F}', '\U{85}', '\U{A0}', '\U{1680}',
     '\U{2000}', '\U{2001}', '\U{2002}', '\U{2003}', '\U{2004}', '\U{2005}',
     '\U{2006}', '\U{2007}', '\U{2008}', '\U{2009}', '\U{200A}',
     '\U{2028}', '\U{2029}', '\U{202F}', '\U{205F}', '\U{3000}'}

  predicate IsSpace(c: char) {
    c in Whitespace
  }

  /** No digit, sign, point or letter of "nan" is whitespace. */
  lemma WhitespacePlain()
    ensures forall c | c in Whitespace :: !('0' <= c <= '9')
    ensures '-' !in Whitespace && '+' !in Whitespace && '.' !in Whitespace
    ensures 'n' !in Whitespace && 'a' !in Whitespace
  {
  }

  // ---------------------------------------------------------------------
  // strip

  /** Every character of `t` is in `drop`. */
  predicate AllIn(t: string, drop: set<char>) {
    forall c | c in t :: c in drop
  }

  /** `s.lstrip(chars)`: drops the leading characters that are in `drop`. */
  function TrimLeft(s: string, drop: set<char>): (r: string)
    ensures |r| <= |s|
  {
    if |s| > 0 && s[0] in drop then TrimLeft(s[1..], drop) else s
  }

  /** `s.rstrip(chars)`: drops the trailing characters that are in `drop`. */
  function TrimRight(s: string, drop: set<char>): (r: string)
    ensures |r| <= |s|
  {
    if |s| > 0 && s[|s| - 1] in drop then TrimRight(s[..|s| - 1], drop) else s
  }

  /** `lstrip` keeps a suffix, removes only characters of `drop`, and stops
      at the first character outside `drop`. */
  lemma {:induction false} TrimLeftSuffix(s: string, drop: set<char>)
    ensures TrimLeft(s, drop) == s[|s| - |TrimLeft(s, drop)|..]
    ensures AllIn(s[..|s| - |TrimLeft(s, drop)|], drop)
    ensures TrimLeft(s, drop) == [] || TrimLeft(s, drop)[0] !in drop
    decreases |s|
  {
    if |s| > 0 && s[0] in drop {
      var r := TrimLeft(s[1..], drop);
      TrimLeftSuffix(s[1..], drop);
      assert s[..|s| - |r|] == [s[0]] + s[1..][..|s| - 1 - |r|];
    }
  }

  /** `rstrip` keeps a prefix, removes only characters of `drop`, and stops
      at the last character outside `drop`. */
  lemma {:induction false} TrimRightPrefix(s: string, drop: set<char>)
    ensures TrimRight(s, drop) == s[..|TrimRight(s, drop)|]
    ensures AllIn(s[|TrimRight(s, drop)|..], drop)
    ensures TrimRight(s, drop) == [] || TrimRight(s, drop)[|TrimRight(s, drop)| - 1] !in drop
    decreases |s|
  {
    if |s| > 0 && s[|s| - 1] in drop {
      var r := TrimRight(s[..|s| - 1], drop);
      TrimRightPrefix(s[..|s| - 1], drop);
      assert s[|r|..] == s[..|s| - 1][|r|..] + [s[|s| - 1]];
    }
  }

  /** `r` is `s` with a prefix of length `i` and a suffix removed, both made
      of characters in `drop`. */
  predicate TrimmedAt(s: string, r: string, drop: set<char>, i: nat) {
    && i + |r| <= |s| && r == s[i..i + |r|]
    && AllIn(s[..i], drop)
    && AllIn(s[i + |r|..], drop)
  }

  /** How many leading characters `s.strip(chars)` removes. */
  function LeadingDropped(s: string, drop: set<char>): nat {
    |s| - |TrimLeft(s, drop)|
  }

  /** `s.strip(chars)`: `lstrip` then `rstrip`. */
  function StripChars(s: string, drop: set<char>): string {
    TrimRight(TrimLeft(s, drop), drop)
  }

  /** What `s.strip(chars)` keeps is a middle part of `s` that neither starts
      nor ends with a character of `drop`, and what it removes on either
      side is made of characters of `drop`. */
  lemma StripTrimmed(s: string, drop: set<char>)
    ensures TrimmedAt(s, StripChars(s, drop), drop, LeadingDropped(s, drop))
    ensures StripChars(s, drop) == [] || StripChars(s, drop)[0] !in drop
    ensures StripChars(s, drop) == [] || StripChars(s, drop)[|StripChars(s, drop)| - 1] !in drop
  {
    var t := TrimLeft(s, drop);
    TrimLeftSuffix(s, drop);
    var i := |s| - |t|;
    assert t == s[i..];
    var r := TrimRight(t, drop);
    TrimRightPrefix(t, drop);
    assert r == t[..|r|];
    assert r == s[i..i + |r|] by {
      assert t[..|r|] == s[i..i + |r|];
    }
    assert s[i + |r|..] == t[|r|..];
    if r != [] {
      TrimFirst(t, drop);
    }
  }

  /** `rstrip` of a string that starts outside `drop` keeps that start. */
  lemma {:induction false} TrimFirst(t: string, drop: set<char>)
    requires t != [] && t[0] !in drop
    ensures TrimRight(t, drop) != [] && TrimRight(t, drop)[0] == t[0]
    decreases |t|
  {
    if t[|t| - 1] in drop {
      assert |t| > 1;
      TrimFirst(t[..|t| - 1], drop);
    }
  }

  /** `s.strip()`. */
  function Strip(s: string): string {
    StripChars(s, Whitespace)
  }

  lemma TrimLeftKeeps(s: string, drop: set<char>)
    requires s == [] || s[0] !in drop
    ensures TrimLeft(s, drop) == s
  {
  }

  lemma TrimRightKeeps(s: string, drop: set<char>)
    requires s == [] || s[|s| - 1] !in drop
    ensures TrimRight(s, drop) == s
  {
  }

  /** Stripping twice is stripping once. */
  lemma StripCharsIdempotent(s: string, drop: set<char>)
    ensures StripChars(StripChars(s, drop), drop) == StripChars(s, drop)
  {
    var r := StripChars(s, drop);
    StripTrimmed(s, drop);
    TrimLeftKeeps(r, drop);
    TrimRightKeeps(r, drop);
  }

  /** A string that neither starts nor ends with whitespace is its own strip. */
  lemma StripKeeps(s: string)
    requires s == [] || (!IsSpace(s[0]) && !IsSpace(s[|s| - 1]))
    ensures Strip(s) == s
  {
    TrimLeftKeeps(s, Whitespace);
    TrimRightKeeps(s, Whitespace);
  }

  // ---------------------------------------------------------------------
  // substrings and replacement

  predicate OccursAt(s: string, sub: string, i: nat) {
    i + |sub| <= |s| && s[i..i + |sub|] == sub
  }

  /** `sub in s`. */
  predicate Contains(s: string, sub: string) {
    exists i: nat | i <= |s| :: OccursAt(s, sub, i)
  }

  /** Text lacking one of a pattern's characters cannot contain it. */
  lemma NotContainsChar(s: string, sub: string, k: nat)
    requires k < |sub| && sub[k] !in s
    ensures !Contains(s, sub)
  {
    forall i: nat | i <= |s| ensures !OccursAt(s, sub, i) {
      if i + |sub| <= |s| {
        assert s[i..i + |sub|][k] == s[i + k];
      }
    }
  }

  lemma ContainsTail(s: string, sub: string)
    requires |s| > 0 && Contains(s[1..], sub)
    ensures Contains(s, sub)
  {
    var i: nat :| i <= |s[1..]| && OccursAt(s[1..], sub, i);
    assert s[i + 1..i + 1 + |sub|] == s[1..][i..i + |sub|];
    assert OccursAt(s, sub, i + 1);
  }

  lemma ContainsFirst(s: string, sub: string)
    requires |sub| <= |s| && s[..|sub|] == sub
    ensures Contains(s, sub)
  {
    assert OccursAt(s, sub, 0);
  }

  lemma NotContainsTail(s: string, sub: string)
    requires |s| > 0
    ensures !Contains(s, sub) ==> !Contains(s[1..], sub)
  {
    if Contains(s[1..], sub) {
      ContainsTail(s, sub);
    }
  }

  /** `s.replace(pat, rep)`: every non-overlapping occurrence of `pat`,
      scanning from the left, is replaced by `rep`. */
  function ReplaceAll(s: string, pat: string, rep: string): (r: string)
    requires |pat| > 0
    ensures !Contains(s, pat) ==> r == s
    decreases |s|
  {
    if |s| < |pat| then
      assert !Contains(s, pat);
      s
    else if s[..|pat|] == pat then
      ContainsFirst(s, pat);
      rep + ReplaceAll(s[|pat|..], pat, rep)
    else
      NotContainsTail(s, pat);
      [s[0]] + ReplaceAll(s[1..], pat, rep)
  }

  /** Removing a single character removes every occurrence of it and keeps
      every other character, as often as it occurred. */
  lemma {:induction false} RemoveCharExact(s: string, c: char)
    ensures c !in ReplaceAll(s, [c], [])
    ensures forall x :: x != c ==> multiset(ReplaceAll(s, [c], []))[x] == multiset(s)[x]
    decreases |s|
  {
    if |s| == 0 {
    } else {
      RemoveCharExact(s[1..], c);
      assert s == [s[0]] + s[1..];
      if s[..1] == [c] {
        assert ReplaceAll(s, [c], []) == ReplaceAll(s[1..], [c], []);
      } else {
        assert ReplaceAll(s, [c], []) == [s[0]] + ReplaceAll(s[1..], [c], []);
      }
    }
  }

  /** Text that lacks the pattern's first character passes through a
      replacement untouched, whatever follows it. */
  lemma {:induction false} ReplaceSkip(a: string, b: string, pat: string, rep: string)
    requires |pat| > 0 && pat[0] !in a
    ensures ReplaceAll(a + b, pat, rep) == a + ReplaceAll(b, pat, rep)
    decreases |a|
  {
    var s := a + b;
    if |a| == 0 {
      assert s == b;
    } else if |s| < |pat| {
      assert ReplaceAll(b, pat, rep) == b;
    } else {
      assert s[..|pat|][0] == a[0];
      assert s[1..] == a[1..] + b;
      ReplaceSkip(a[1..], b, pat, rep);
      assert a == [a[0]] + a[1..];
    }
  }

  /** An occurrence at the front is replaced. */
  lemma ReplaceHead(pat: string, b: string, rep: string)
    requires |pat| > 0
    ensures ReplaceAll(pat + b, pat, rep) == rep + ReplaceAll(b, pat, rep)
  {
    var s := pat + b;
    assert s[..|pat|] == pat && s[|pat|..] == b;
  }

  lemma ReplaceAbsent(s: string, pat: string, rep: string)
    requires |pat| > 0 && pat[0] !in s
    ensures ReplaceAll(s, pat, rep) == s
  {
    ReplaceSkip(s, [], pat, rep);
    assert s + [] == s;
  }

  /** Deleting a pattern introduces no character. */
  lemma {:induction false} DeleteKeepsChars(s: string, pat: string, x: char)
    requires |pat| > 0 && x in ReplaceAll(s, pat, [])
    ensures x in s
    decreases |s|
  {
    if |s| >= |pat| {
      if s[..|pat|] == pat {
        DeleteKeepsChars(s[|pat|..], pat, x);
      } else {
        var t := ReplaceAll(s[1..], pat, []);
        assert ReplaceAll(s, pat, []) == [s[0]] + t;
        if x != s[0] {
          DeleteKeepsChars(s[1..], pat, x);
        }
      }
    }
  }

  // ---------------------------------------------------------------------
  // splitting

  /** The inverse of `sep.join(parts)`. */
  function Join(parts: seq<string>, sep: char): string {
    if |parts| == 0 then []
    else if |parts| == 1 then parts[0]
    else parts[0] + [sep] + Join(parts[1..], sep)
  }

  /** `s.split(sep)` for a one-character separator. */
  function Split(s: string, sep: char): (parts: seq<string>)
    ensures |parts| >= 1
    ensures forall p | p in parts :: sep !in p
    ensures Join(parts, sep) == s
    ensures s != [] && s[0] != sep ==> parts[0] != [] && parts[0][0] == s[0]
  {
    if |s| == 0 then [""]
    else
      var rest := Split(s[1..], sep);
      if s[0] == sep then
        assert s == [sep] + s[1..];
        [""] + rest
      else
        var parts := [[s[0]] + rest[0]] + rest[1..];
        assert parts[1..] == rest[1..];
        assert s == [s[0]] + s[1..];
        parts
  }

  /** Text without the separator is one part. */
  lemma {:induction false} SplitNone(a: string, sep: char)
    requires sep !in a
    ensures Split(a, sep) == [a]
  {
    if |a| > 0 {
      assert sep !in a[1..] by {
        forall k | 0 <= k < |a[1..]| ensures a[1..][k] != sep {
          assert a[1..][k] == a[k + 1];
        }
      }
      SplitNone(a[1..], sep);
      assert [a[0]] + a[1..] == a;
    }
  }

  /** The text before the first separator is the first part; the rest is
      split on its own. */
  lemma {:induction false} SplitCons(a: string, sep: char, b: string)
    requires sep !in a
    ensures Split(a + [sep] + b, sep) == [a] + Split(b, sep)
  {
    var s := a + [sep] + b;
    if |a| == 0 {
      assert s == [sep] + b && s[1..] == b;
    } else {
      assert s[0] == a[0] && s[1..] == a[1..] + [sep] + b;
      assert sep !in a[1..] by {
        forall k | 0 <= k < |a[1..]| ensures a[1..][k] != sep {
          assert a[1..][k] == a[k + 1];
        }
      }
      SplitCons(a[1..], sep, b);
      assert [a[0]] + a[1..] == a;
    }
  }

  /** Text holding the separator splits into at least two parts. */
  lemma SplitAtSeparator(s: string, sep: char)
    requires sep in s
    ensures |Split(s, sep)| >= 2
  {
  }

  /** Concatenation of all parts. */
  function Flatten(parts: seq<string>): string {
    if |parts| == 0 then [] else parts[0] + Flatten(parts[1..])
  }

  /** The characters of `s` that are not whitespace, in order. */
  function RemoveSpace(s: string): string {
    if |s| == 0 then [] else (if IsSpace(s[0]) then [] else [s[0]]) + RemoveSpace(s[1..])
  }

  predicate NoSpace(t: string) {
    forall c | c in t :: !IsSpace(c)
  }

  /** `re.split(r'\s+', s)`, which pandas' `str.split('\s+')` performs: the
      tokens between maximal runs of whitespace. */
  function SplitRuns(s: string): (tokens: seq<string>)
    ensures |tokens| >= 1
  {
    if |s| == 0 then [""]
    else
      var rest := SplitRuns(s[1..]);
      if IsSpace(s[0]) then
        if |s| > 1 && IsSpace(s[1]) then rest else [""] + rest
      else
        [[s[0]] + rest[0]] + rest[1..]
  }

  /** No token holds whitespace. */
  lemma {:induction false} SplitRunsNoSpace(s: string)
    ensures forall t | t in SplitRuns(s) :: NoSpace(t)
    decreases |s|
  {
    if |s| > 0 {
      var rest := SplitRuns(s[1..]);
      SplitRunsNoSpace(s[1..]);
      if !IsSpace(s[0]) {
        var tokens := SplitRuns(s);
        assert NoSpace(rest[0]) by { assert rest[0] in rest; }
        assert forall c | c in tokens[0] :: c == s[0] || c in rest[0];
        assert forall t | t in tokens :: t == tokens[0] || t in rest;
      }
    }
  }

  /** The tokens, put back together, are the non-whitespace characters of
      the cell: nothing but whitespace is dropped. */
  lemma {:induction false} SplitRunsFlatten(s: string)
    ensures Flatten(SplitRuns(s)) == RemoveSpace(s)
    decreases |s|
  {
    if |s| > 0 {
      var rest := SplitRuns(s[1..]);
      var tokens := SplitRuns(s);
      SplitRunsFlatten(s[1..]);
      if IsSpace(s[0]) {
        assert RemoveSpace(s) == RemoveSpace(s[1..]);
        if !(|s| > 1 && IsSpace(s[1])) {
          FlattenCons("", rest);
        }
      } else {
        var head, tail := rest[0], rest[1..];
        assert rest == [head] + tail;
        FlattenCons(head, tail);
        FlattenCons([s[0]] + head, tail);
        assert ([s[0]] + head) + Flatten(tail) == [s[0]] + (head + Flatten(tail));
        assert RemoveSpace(s) == [s[0]] + RemoveSpace(s[1..]);
      }
    }
  }

  lemma FlattenCons(part: string, parts: seq<string>)
    ensures Flatten([part] + parts) == part + Flatten(parts)
  {
    assert ([part] + parts)[1..] == parts;
  }

  /** The first token is empty exactly when the cell starts with whitespace,
      and otherwise starts with the cell's first character. */
  lemma {:induction false} SplitRunsHead(s: string)
    requires s != []
    ensures !IsSpace(s[0]) ==> SplitRuns(s)[0] != [] && SplitRuns(s)[0][0] == s[0]
    ensures IsSpace(s[0]) ==> SplitRuns(s)[0] == []
    decreases |s|
  {
    if IsSpace(s[0]) && |s| > 1 && IsSpace(s[1]) {
      SplitRunsHead(s[1..]);
    }
  }

  /** Only the first token (a leading run) and the last (a trailing run) can
      be empty. */
  lemma {:induction false} SplitRunsMiddle(s: string)
    ensures forall i | 0 < i < |SplitRuns(s)| - 1 :: SplitRuns(s)[i] != []
    decreases |s|
  {
    if |s| > 0 {
      var rest := SplitRuns(s[1..]);
      var tokens := SplitRuns(s);
      SplitRunsMiddle(s[1..]);
      if IsSpace(s[0]) {
        if !(|s| > 1 && IsSpace(s[1])) {
          if |s| > 1 {
            SplitRunsHead(s[1..]);
          }
          assert tokens[1..] == rest;
        }
      } else {
        assert tokens[1..] == rest[1..];
      }
    }
  }

  /** A cell that does not end in whitespace has a non-empty last token. */
  lemma {:induction false} SplitRunsLast(s: string)
    requires s != [] && !IsSpace(s[|s| - 1])
    ensures SplitRuns(s)[|SplitRuns(s)| - 1] != []
    decreases |s|
  {
    if |s| == 1 {
    } else {
      var rest := SplitRuns(s[1..]);
      assert s[1..][|s[1..]| - 1] == s[|s| - 1];
      SplitRunsLast(s[1..]);
      if !IsSpace(s[0]) {
        assert SplitRuns(s)[1..] == rest[1..];
      }
    }
  }

  /** A stripped, non-empty cell splits on whitespace into non-empty tokens. */
  lemma SplitRunsOfStripped(s: string)
    requires s != [] && Strip(s) == s
    ensures forall t | t in SplitRuns(s) :: t != []
  {
    StrippedEnds(s);
    SplitRunsOfTrimmed(s);
  }

  /** A cell that is its own strip neither starts nor ends with whitespace. */
  lemma StrippedEnds(s: string)
    requires s != [] && Strip(s) == s
    ensures !IsSpace(s[0]) && !IsSpace(s[|s| - 1])
  {
    StripTrimmed(s, Whitespace);
  }

  lemma SplitRunsOfTrimmed(s: string)
    requires s != [] && !IsSpace(s[0]) && !IsSpace(s[|s| - 1])
    ensures forall t | t in SplitRuns(s) :: t != []
  {
    var tokens := SplitRuns(s);
    SplitRunsHead(s);
    SplitRunsMiddle(s);
    SplitRunsLast(s);
    assert forall i | 0 <= i < |tokens| :: tokens[i] != [];
  }

  /** Every comma of `t` is followed, inside `t`, by whitespace. */
  predicate CommasGuarded(t: string) {
    forall i | 0 <= i < |t| && t[i] == ',' :: i + 1 < |t| && IsSpace(t[i + 1])
  }

  lemma GuardedCons(c: char, t: string)
    requires CommasGuarded(t)
    requires c == ',' ==> t != [] && IsSpace(t[0])
    ensures CommasGuarded([c] + t)
  {
    var u := [c] + t;
    forall i | 0 <= i < |u| && u[i] == ','
      ensures i + 1 < |u| && IsSpace(u[i + 1])
    {
      if i > 0 {
        assert u[i] == t[i - 1];
      }
    }
  }

  /** Whether position 0 of `s` is a splitting comma: one not followed by
      whitespace. */
  predicate SplitsHere(s: string) {
    |s| > 0 && s[0] == ',' && (|s| == 1 || !IsSpace(s[1]))
  }

  /** `re.split(r'[,](?!\s)', s)`: splits at every comma that is not
      followed by whitespace (a comma at the very end also splits). */
  function SplitCommas(s: string): (tokens: seq<string>)
    ensures |tokens| >= 1
  {
    if |s| == 0 then [""]
    else
      var rest := SplitCommas(s[1..]);
      if SplitsHere(s) then [""] + rest
      else [[s[0]] + rest[0]] + rest[1..]
  }

  /** The first token starts with the cell's first character unless the
      cell starts with a splitting comma. */
  lemma SplitCommasHead(s: string)
    requires s != [] && !SplitsHere(s)
    ensures SplitCommas(s)[0] != [] && SplitCommas(s)[0][0] == s[0]
  {
  }

  /** Joining the tokens with commas gives the cell back. */
  lemma {:induction false} SplitCommasJoin(s: string)
    ensures Join(SplitCommas(s), ',') == s
    decreases |s|
  {
    if |s| > 0 {
      var rest := SplitCommas(s[1..]);
      SplitCommasJoin(s[1..]);
      assert s == [s[0]] + s[1..];
      if !SplitsHere(s) {
        assert SplitCommas(s)[1..] == rest[1..];
      } else {
        assert ([""] + rest)[1..] == rest;
      }
    }
  }

  /** Every comma left inside a token is followed by whitespace. */
  lemma {:induction false} SplitCommasGuarded(s: string)
    ensures forall t | t in SplitCommas(s) :: CommasGuarded(t)
    decreases |s|
  {
    if |s| > 0 {
      var rest := SplitCommas(s[1..]);
      SplitCommasGuarded(s[1..]);
      if !SplitsHere(s) {
        var tokens := SplitCommas(s);
        if s[0] == ',' {
          SplitCommasHead(s[1..]);
        }
        assert rest[0] in rest;
        GuardedCons(s[0], rest[0]);
        assert forall t | t in tokens :: t == tokens[0] || t in rest;
      }
    }
  }

  // ---------------------------------------------------------------------
  // numbers as text

  predicate IsDigit(c: char) {
    '0' <= c <= '9'
  }

  predicate AllDigits(s: string) {
    forall c | c in s :: IsDigit(c)
  }

  function DigitValue(c: char): nat
    requires IsDigit(c)
  {
    c as int - '0' as int
  }

  function DigitChar(d: nat): char
    requires d < 10
  {
    (d + '0' as int) as char
  }

  /** The value of a run of decimal digits, most significant first. */
  function DigitsValue(ds: string): nat
    requires AllDigits(ds)
  {
    if |ds| == 0 then 0 else DigitsValue(ds[..|ds| - 1]) * 10 + DigitValue(ds[|ds| - 1])
  }

  /** The value of the digits after a decimal point: "25" is 0.25. Written
      digit by digit so that it stays within linear arithmetic. */
  function FracValue(ds: string): (v: real)
    requires AllDigits(ds)
    ensures 0.0 <= v < 1.0
  {
    if |ds| == 0 then 0.0 else (DigitValue(ds[0]) as real + FracValue(ds[1..])) / 10.0
  }

  function IndexOfChar(s: string, c: char): (i: nat)
    requires c in s
    ensures i < |s| && s[i] == c && c !in s[..i]
  {
    if s[0] == c then 0 else
      var j := IndexOfChar(s[1..], c);
      assert s[..j + 1] == [s[0]] + s[1..][..j];
      j + 1
  }

  /** Unsigned decimal text: digits, or digits '.' digits with at least one
      digit on either side. */
  function ParseUnsigned(t: string): Option<real> {
    if '.' in t then
      var i := IndexOfChar(t, '.');
      var whole, frac := t[..i], t[i + 1..];
      if |whole| + |frac| > 0 && AllDigits(whole) && AllDigits(frac) then
        Some(DigitsValue(whole) as real + FracValue(frac))
      else None
    else if |t| > 0 && AllDigits(t) then Some(DigitsValue(t) as real)
    else None
  }

  /** `float(s)` on decimal text: surrounding whitespace, an optional sign,
      digits with an optional fraction. None where float() raises. */
  function ParseDecimal(s: string): Option<real> {
    ParseSigned(Strip(s))
  }

  /** `float` on stripped text: an optional sign, then an unsigned number. */
  function ParseSigned(t: string): Option<real> {
    if |t| > 0 && t[0] == '-' then
      match ParseUnsigned(t[1..])
      case Some(v) => Some(-v)
      case None => None
    else if |t| > 0 && t[0] == '+' then ParseUnsigned(t[1..])
    else ParseUnsigned(t)
  }

  /** `str(n)` for a natural number. */
  function NatText(n: nat): (s: string)
    ensures |s| >= 1 && AllDigits(s)
    ensures DigitsValue(s) == n
  {
    if n < 10 then [DigitChar(n)]
    else
      var s := NatText(n / 10) + [DigitChar(n % 10)];
      assert s[..|s| - 1] == NatText(n / 10);
      s
  }

  /** `str(n)` for an integer. */
  function IntText(n: int): string {
    if n < 0 then "-" + NatText(-n) else NatText(n)
  }

  /** The text of a whole number starts with a minus or a digit and ends
      with a digit. */
  lemma IntTextEnds(n: int)
    ensures |IntText(n)| > 0
    ensures IntText(n)[0] == '-' || IsDigit(IntText(n)[0])
    ensures IsDigit(IntText(n)[|IntText(n)| - 1])
  {
    var ds := NatText(if n < 0 then -n else n);
    assert ds[0] in ds && ds[|ds| - 1] in ds;
  }

  /** Stripping characters that are neither digits nor a minus leaves the
      text of a whole number alone. */
  lemma IntTextUnstripped(n: int, drop: set<char>)
    requires '-' !in drop && forall c | c in drop :: !IsDigit(c)
    ensures StripChars(IntText(n), drop) == IntText(n)
  {
    IntTextEnds(n);
    TrimLeftKeeps(IntText(n), drop);
    TrimRightKeeps(IntText(n), drop);
  }

  lemma ParseDigits(ds: string)
    requires |ds| >= 1 && AllDigits(ds)
    ensures ParseUnsigned(ds) == Some(DigitsValue(ds) as real)
  {
    assert forall c | c in ds :: IsDigit(c) && c != '.';
  }

  /** float(str(n)) == n: reading back the text of a whole number gives the
      number. */
  lemma ParseIntText(n: int)
    ensures ParseDecimal(IntText(n)) == Some(n as real)
  {
    if n < 0 {
      ParseNegText(-n);
    } else {
      ParseNatText(n);
    }
  }

  /** On text with nothing to strip and a leading minus, `float` negates
      what follows the sign. */
  lemma ParseDecimalNegative(s: string)
    requires |s| > 1 && s[0] == '-' && !IsSpace(s[|s| - 1])
    ensures ParseDecimal(s) == (match ParseUnsigned(s[1..]) case Some(v) => Some(-v) case None => None)
  {
    StripKeeps(s);
    assert ParseDecimal(s) == ParseSigned(s);
  }

  /** On text with nothing to strip and no sign, `float` reads the digits. */
  lemma ParseDecimalUnsigned(s: string)
    requires |s| > 0 && s[0] != '-' && s[0] != '+' && !IsSpace(s[0]) && !IsSpace(s[|s| - 1])
    ensures ParseDecimal(s) == ParseUnsigned(s)
  {
    StripKeeps(s);
    assert ParseDecimal(s) == ParseSigned(s);
  }

  lemma ParseNatText(n: nat)
    ensures ParseDecimal(NatText(n)) == Some(n as real)
  {
    var ds := NatText(n);
    assert ds[0] in ds && ds[|ds| - 1] in ds;
    ParseDecimalUnsigned(ds);
    ParseDigits(ds);
  }

  lemma ParseNegText(n: nat)
    requires n > 0
    ensures ParseDecimal("-" + NatText(n)) == Some(-(n as real))
  {
    var ds := NatText(n);
    var s := "-" + ds;
    assert ds[|ds| - 1] in ds;
    assert s[|s| - 1] == ds[|ds| - 1];
    assert s[1..] == ds;
    ParseDecimalNegative(s);
    ParseDigits(ds);
  }
}
