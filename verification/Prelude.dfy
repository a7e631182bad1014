/** Types shared by the models of every component. */
module Prelude {

  datatype Option<+T> = None | Some(value: T)

  /** The outcome of a call: a returned value, or the exception it raised. */
  datatype Result<+T, +E> = Ok(value: T) | Err(error: E)

  /** A dictionary entry that may be absent, hold Python's `None`, or hold text. */
  datatype Field = Missing | Nothing | Filled(text: string)

  /** `str(record.get(field, ""))` */
  function FieldText(f: Field): string {
    match f case Missing => "" case Nothing => "None" case Filled(t) => t
  }

  /** ASCII lower-casing of one character. */
  function LowerChar(c: char): char {
    if 'A' <= c <= 'Z' then ((c as int) + 32) as char else c
  }

  function Lower(s: string): (r: string)
    ensures |r| == |s|
    ensures forall i :: 0 <= i < |s| ==> r[i] == LowerChar(s[i])
  {
    if s == [] then [] else [LowerChar(s[0])] + Lower(s[1..])
  }

  /** The same letter in either case, or the same character. */
  predicate SameLetter(c: char, d: char) {
    || c == d
    || ('A' <= c <= 'Z' && 'a' <= d <= 'z' && c - 'A' == d - 'a')
    || ('A' <= d <= 'Z' && 'a' <= c <= 'z' && d - 'A' == c - 'a')
  }

  /** Equal up to the case of their letters. */
  predicate EqualFold(a: string, b: string) {
    |a| == |b| && forall i :: 0 <= i < |a| ==> SameLetter(a[i], b[i])
  }

  /** A text without capitals is its own lower-case form. */
  lemma {:induction false} LowerFixed(s: string)
    requires forall i :: 0 <= i < |s| ==> !('A' <= s[i] <= 'Z')
    ensures Lower(s) == s
  {
  }

  lemma SameLetterIff(c: char, d: char)
    ensures LowerChar(c) == LowerChar(d) <==> SameLetter(c, d)
  {
  }

  /** Two texts have the same lower-case form exactly when they are equal up to case. */
  lemma {:induction false} LowerEqIff(a: string, b: string)
    ensures Lower(a) == Lower(b) <==> EqualFold(a, b)
  {
    if EqualFold(a, b) {
      forall i | 0 <= i < |a| ensures Lower(a)[i] == Lower(b)[i] {
        SameLetterIff(a[i], b[i]);
      }
    } else if |a| == |b| {
      var i :| 0 <= i < |a| && !SameLetter(a[i], b[i]);
      SameLetterIff(a[i], b[i]);
      assert Lower(a)[i] != Lower(b)[i];
    }
  }

  predicate IsSpace(c: char) { c == ' ' || 9 <= c as int <= 13 || 28 <= c as int <= 31 }

  /** `str.strip()` over ASCII whitespace. */
  function Strip(s: string): string
    decreases |s|
  {
    if s == "" then ""
    else if IsSpace(s[0]) then Strip(s[1..])
    else if IsSpace(s[|s| - 1]) then Strip(s[..|s| - 1])
    else s
  }

  /** `r` is what stands between `i` and `j`, all around it is space, and it neither starts nor ends with one. */
  predicate Stripped(s: string, r: string, i: nat, j: nat) {
    && i <= j <= |s| && r == s[i..j]
    && (forall k :: 0 <= k < i ==> IsSpace(s[k])) && (forall k :: j <= k < |s| ==> IsSpace(s[k]))
    && (r != "" ==> !IsSpace(r[0]) && !IsSpace(r[|r| - 1]))
  }

  lemma {:induction false} StrippedLeft(s: string, r: string, i: nat, j: nat)
    requires s != "" && IsSpace(s[0]) && Stripped(s[1..], r, i, j)
    ensures Stripped(s, r, i + 1, j + 1)
  {
    assert forall k :: 1 <= k < |s| ==> s[k] == s[1..][k - 1];
  }

  lemma {:induction false} StrippedRight(s: string, r: string, i: nat, j: nat)
    requires s != "" && IsSpace(s[|s| - 1]) && Stripped(s[..|s| - 1], r, i, j)
    ensures Stripped(s, r, i, j)
  {
    assert forall k :: 0 <= k < |s| - 1 ==> s[k] == s[..|s| - 1][k];
  }

  /** Stripping cuts spaces off both ends, and all of them. */
  lemma {:induction false} StripMeans(s: string) returns (i: nat, j: nat)
    ensures Stripped(s, Strip(s), i, j)
    decreases |s|
  {
    if s == "" {
      i, j := 0, 0;
    } else if IsSpace(s[0]) {
      i, j := StripMeans(s[1..]);
      StrippedLeft(s, Strip(s), i, j);
      i, j := i + 1, j + 1;
    } else if IsSpace(s[|s| - 1]) {
      i, j := StripMeans(s[..|s| - 1]);
      StrippedRight(s, Strip(s), i, j);
    } else {
      i, j := 0, |s|;
    }
  }

  predicate SlugChar(c: char) { 'a' <= c <= 'z' || '0' <= c <= '9' }

  /** Runs of other characters become one hyphen. */
  function Hyphenate(s: string): string {
    if s == "" then ""
    else if SlugChar(s[0]) then [s[0]] + Hyphenate(s[1..])
    else
      var rest := Hyphenate(s[1..]);
      if rest != "" && rest[0] == '-' then rest else "-" + rest
  }

  function StripHyphens(s: string): string
    decreases |s|
  {
    if s == "" then ""
    else if s[0] == '-' then StripHyphens(s[1..])
    else if s[|s| - 1] == '-' then StripHyphens(s[..|s| - 1])
    else s
  }

  /** A URL-safe slug from a name. */
  function Slugify(name: string): string {
    var slug := StripHyphens(Hyphenate(Lower(name)));
    if slug == "" then "org" else slug
  }

  /** The letters and digits of a text, in order. */
  function SlugChars(s: string): string {
    if s == "" then "" else (if SlugChar(s[0]) then [s[0]] else "") + SlugChars(s[1..])
  }

  /** Letters and digits in single-hyphenated runs. */
  predicate Hyphenated(s: string) {
    && (forall i :: 0 <= i < |s| ==> SlugChar(s[i]) || s[i] == '-')
    && (forall i :: 0 <= i < |s| - 1 ==> SlugChar(s[i]) || SlugChar(s[i + 1]))
  }

  lemma {:induction false} HyphenateMeans(s: string)
    ensures Hyphenated(Hyphenate(s)) && SlugChars(Hyphenate(s)) == SlugChars(s)
  {
    if s != "" {
      HyphenateMeans(s[1..]);
      var rest := Hyphenate(s[1..]);
      if SlugChar(s[0]) {
        assert ([s[0]] + rest)[1..] == rest;
      } else if rest == "" || rest[0] != '-' {
        assert ("-" + rest)[1..] == rest;
      }
    }
  }

  lemma {:induction false} SlugCharsSnoc(s: string, c: char)
    ensures SlugChars(s + [c]) == SlugChars(s) + if SlugChar(c) then [c] else ""
  {
    if s == "" {
      assert s + [c] == [c];
    } else {
      SlugCharsSnoc(s[1..], c);
      var first, last := if SlugChar(s[0]) then [s[0]] else "", if SlugChar(c) then [c] else "";
      assert (s + [c])[1..] == s[1..] + [c] && (s + [c])[0] == s[0];
      assert first + (SlugChars(s[1..]) + last) == first + SlugChars(s[1..]) + last;
    }
  }

  lemma {:induction false} StripHyphensMeans(s: string)
    requires Hyphenated(s)
    ensures var r := StripHyphens(s);
            && Hyphenated(r) && SlugChars(r) == SlugChars(s)
            && (r != "" ==> SlugChar(r[0]) && SlugChar(r[|r| - 1]))
    decreases |s|
  {
    if s != "" && s[0] == '-' {
      StripHyphensMeans(s[1..]);
    } else if s != "" && s[|s| - 1] == '-' {
      SlugCharsSnoc(s[..|s| - 1], '-');
      assert s == s[..|s| - 1] + ['-'];
      StripHyphensMeans(s[..|s| - 1]);
    }
  }

  /** A slug is never empty; it starts and ends with a letter or digit, its hyphens stand alone, and its letters
      and digits are those of the lower-cased name, in order, if that has any. */
  lemma {:induction false} SlugifyMeans(name: string)
    ensures var slug := Slugify(name);
            && slug != "" && Hyphenated(slug) && SlugChar(slug[0]) && SlugChar(slug[|slug| - 1])
            && SlugChars(slug) == (if SlugChars(Lower(name)) == "" then "org" else SlugChars(Lower(name)))
  {
    var h := Hyphenate(Lower(name));
    HyphenateMeans(Lower(name));
    StripHyphensMeans(h);
    var slug := StripHyphens(h);
    if slug == "" {
      assert SlugChars("org") == "org" by {
        assert "org"[1..] == "rg" && "rg"[1..] == "g" && "g"[1..] == "";
      }
    } else {
      assert SlugChars(slug) != "";
    }
  }

  function Reverse<T>(s: seq<T>): (r: seq<T>)
    ensures |r| == |s|
    ensures forall i {:trigger r[i]} :: 0 <= i < |s| ==> r[i] == s[|s| - 1 - i]
  {
    if s == [] then [] else Reverse(s[1..]) + [s[0]]
  }

  lemma ReverseTwice<T>(s: seq<T>)
    ensures Reverse(Reverse(s)) == s
  {
  }

  /** How many stamps fall in the half-open interval from `lo` to `hi`. */
  function Inside(stamps: seq<real>, lo: real, hi: real): nat {
    if stamps == [] then 0
    else (if lo <= stamps[0] < hi then 1 else 0) + Inside(stamps[1..], lo, hi)
  }

  lemma {:induction false} InsideConcat(a: seq<real>, b: seq<real>, lo: real, hi: real)
    ensures Inside(a + b, lo, hi) == Inside(a, lo, hi) + Inside(b, lo, hi)
  {
    if a == [] {
      assert a + b == b;
    } else {
      assert (a + b)[1..] == a[1..] + b;
      InsideConcat(a[1..], b, lo, hi);
    }
  }

  /** The positions below `n` at which `p` holds. */
  ghost function Positions<T(!new)>(xs: seq<T>, n: nat, p: T -> bool): set<int>
    requires n <= |xs|
  {
    set i | 0 <= i < n && p(xs[i])
  }

  lemma {:induction false} PositionsSnoc<T(!new)>(xs: seq<T>, n: nat, p: T -> bool)
    requires 0 < n <= |xs|
    ensures |Positions(xs, n, p)| == |Positions(xs, n - 1, p)| + if p(xs[n - 1]) then 1 else 0
  {
    assert Positions(xs, n, p) == Positions(xs, n - 1, p) + if p(xs[n - 1]) then {n - 1} else {};
  }

  /** No value twice. */
  ghost predicate Distinct<T>(xs: seq<T>) {
    forall i, j :: 0 <= i < j < |xs| ==> xs[i] != xs[j]
  }
}
