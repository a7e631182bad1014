/**
 Literal search through SQL `LIKE`: the search term's wildcards are escaped, and the
 pattern then matches exactly the texts that contain the term (section 8.5 of
 ISO/IEC 9075-2).
 */
module LikeSearch {
  import opened Prelude

  const ESC := '\\'

  predicate Special(c: char) { c == '%' || c == '_' || c == ESC }

  /** `text LIKE p ESCAPE '\'` */
  predicate Like(p: string, text: string)
    decreases |p|, |text|
  {
    if p == "" then text == ""
    else if p[0] == '%' then Like(p[1..], text) || (text != "" && Like(p, text[1..]))
    else if p[0] == '_' then text != "" && Like(p[1..], text[1..])
    else if p[0] == ESC then
      |p| >= 2 && Special(p[1]) && text != "" && text[0] == p[1] && Like(p[2..], text[1..])
    else text != "" && text[0] == p[0] && Like(p[1..], text[1..])
  }

  /** `s.replace(c, with)` for a single character `c`. */
  function Replace(s: string, c: char, with: string): string {
    if s == "" then "" else (if s[0] == c then with else [s[0]]) + Replace(s[1..], c, with)
  }

  /** The three replacements, one after the other. */
  function EscapeLike(s: string): string {
    Replace(Replace(Replace(s, ESC, [ESC, ESC]), '%', [ESC, '%']), '_', [ESC, '_'])
  }

  function EscapeChar(c: char): string { if Special(c) then [ESC, c] else [c] }

  /** Escaping in a single pass. */
  function EscapeOnce(s: string): string {
    if s == "" then "" else EscapeChar(s[0]) + EscapeOnce(s[1..])
  }

  predicate Contains(text: string, needle: string) {
    exists i :: 0 <= i <= |text| && needle <= text[i..]
  }

  lemma {:induction false} ReplaceConcat(a: string, b: string, c: char, with: string)
    ensures Replace(a + b, c, with) == Replace(a, c, with) + Replace(b, c, with)
  {
    if a == "" {
      assert a + b == b;
    } else {
      assert (a + b)[1..] == a[1..] + b;
      ReplaceConcat(a[1..], b, c, with);
    }
  }

  lemma ReplaceChar(d: char, c: char, with: string)
    ensures Replace([d], c, with) == if d == c then with else [d]
  {
    assert [d][1..] == "";
  }

  lemma ReplaceTwo(d: char, e: char, c: char, with: string)
    ensures Replace([d, e], c, with) == (if d == c then with else [d]) + (if e == c then with else [e])
  {
    assert [d, e] == [d] + [e];
    ReplaceConcat([d], [e], c, with);
    ReplaceChar(d, c, with);
    ReplaceChar(e, c, with);
  }

  lemma EscapeLikeChar(c: char)
    ensures EscapeLike([c]) == EscapeChar(c)
  {
    ReplaceChar(c, ESC, [ESC, ESC]);
    if c == ESC {
      ReplaceTwo(ESC, ESC, '%', [ESC, '%']);
      ReplaceTwo(ESC, ESC, '_', [ESC, '_']);
    } else {
      ReplaceChar(c, '%', [ESC, '%']);
      if c == '%' {
        ReplaceTwo(ESC, '%', '_', [ESC, '_']);
      } else {
        ReplaceChar(c, '_', [ESC, '_']);
      }
    }
  }

  /** The order of the three replacements makes them one single-pass escape. */
  lemma {:induction false} EscapeInOnePass(s: string)
    ensures EscapeLike(s) == EscapeOnce(s)
  {
    if s != "" {
      var a, b := [s[0]], s[1..];
      assert s == a + b;
      var with1, with2, with3 := [ESC, ESC], [ESC, '%'], [ESC, '_'];
      ReplaceConcat(a, b, ESC, with1);
      ReplaceConcat(Replace(a, ESC, with1), Replace(b, ESC, with1), '%', with2);
      ReplaceConcat(Replace(Replace(a, ESC, with1), '%', with2), Replace(Replace(b, ESC, with1), '%', with2), '_', with3);
      EscapeLikeChar(s[0]);
      EscapeInOnePass(b);
    }
  }

  lemma {:induction false} EscapedCharConsumes(c: char, tail: string, text: string)
    ensures Like(EscapeChar(c) + tail, text) <==> text != "" && text[0] == c && Like(tail, text[1..])
  {
    var p := EscapeChar(c) + tail;
    if Special(c) {
      assert p[0] == ESC && p[1] == c && p[2..] == tail;
    } else {
      assert p[0] == c && p[1..] == tail;
    }
  }

  /** An escaped literal consumes exactly itself. */
  lemma {:induction false} LiteralConsumes(s: string, rest: string, text: string)
    ensures Like(EscapeOnce(s) + rest, text) <==> s <= text && Like(rest, text[|s|..])
    decreases |s|
  {
    if s == "" {
      assert EscapeOnce(s) + rest == rest;
      assert text[0..] == text;
    } else {
      var tail := EscapeOnce(s[1..]) + rest;
      assert EscapeOnce(s) + rest == EscapeChar(s[0]) + tail;
      EscapedCharConsumes(s[0], tail, text);
      if text != "" {
        LiteralConsumes(s[1..], rest, text[1..]);
        assert s <= text <==> text[0] == s[0] && s[1..] <= text[1..];
        assert s <= text ==> text[1..][|s| - 1..] == text[|s|..];
      }
    }
  }

  lemma {:induction false} PercentMatchesAll(text: string)
    ensures Like("%", text)
  {
    assert "%"[1..] == "";
    if text != "" {
      PercentMatchesAll(text[1..]);
    }
  }

  /** A leading `%` tries every suffix. */
  lemma {:induction false} PercentScans(p: string, text: string)
    ensures Like("%" + p, text) <==> exists i :: 0 <= i <= |text| && Like(p, text[i..])
  {
    var q := "%" + p;
    assert q[1..] == p;
    assert text[0..] == text;
    if text != "" {
      PercentScans(p, text[1..]);
      assert forall i :: 0 <= i < |text| ==> text[1..][i..] == text[i + 1..];
      if i :| 0 <= i <= |text| && Like(p, text[i..]) {
        if i > 0 {
          assert Like(p, text[1..][i - 1..]);
        }
      }
      if i :| 0 <= i <= |text| - 1 && Like(p, text[1..][i..]) {
        assert Like(p, text[i + 1..]);
      }
    }
  }

  /** For every needle and text, the escaped pattern matches exactly when the text contains the needle. */
  lemma {:induction false} EscapedLikeIsContains(needle: string, text: string)
    ensures Like("%" + EscapeLike(needle) + "%", text) <==> Contains(text, needle)
  {
    EscapeInOnePass(needle);
    var p := EscapeOnce(needle) + "%";
    assert "%" + EscapeLike(needle) + "%" == "%" + p;
    PercentScans(p, text);
    forall i | 0 <= i <= |text| ensures Like(p, text[i..]) <==> needle <= text[i..] {
      LiteralConsumes(needle, "%", text[i..]);
      if needle <= text[i..] {
        PercentMatchesAll(text[i..][|needle|..]);
      }
    }
  }

  // ---- user search ----

  /** `coalesce(column, "")` */
  function Column(f: Field): string {
    match f case Filled(t) => t case _ => ""
  }

  predicate SqlMatches(search: string, username: Field, email: Field) {
    search == "" || Like("%" + EscapeLike(Lower(search)) + "%", Lower(Column(username) + " " + Column(email)))
  }

  predicate MemoryMatches(search: string, username: Field, email: Field) {
    search == "" || Contains(Lower(FieldText(username) + " " + FieldText(email)), Lower(search))
  }

  /** A text never contains a longer one; it contains itself. */
  lemma ContainsFacts(text: string, needle: string)
    ensures |needle| > |text| ==> !Contains(text, needle)
    ensures Contains(text, text)
  {
    assert text[0..] == text;
  }

  /** Both searches agree on every term exactly when neither field holds an explicit `None`, which the
      in-memory search reads as the text "None". */
  lemma {:induction false} SearchesAgreeIff(username: Field, email: Field)
    ensures (forall search :: SqlMatches(search, username, email) <==> MemoryMatches(search, username, email))
       <==> !username.Nothing? && !email.Nothing?
  {
    var row, doc := Column(username) + " " + Column(email), FieldText(username) + " " + FieldText(email);
    if username.Nothing? || email.Nothing? {
      var search := doc;
      EscapedLikeIsContains(Lower(search), Lower(row));
      ContainsFacts(Lower(row), Lower(search));
      ContainsFacts(Lower(doc), Lower(doc));
      assert !SqlMatches(search, username, email) && MemoryMatches(search, username, email);
    } else {
      forall search ensures SqlMatches(search, username, email) <==> MemoryMatches(search, username, email) {
        EscapedLikeIsContains(Lower(search), Lower(row));
      }
    }
  }

  /** Without the escape a search would find too much: an underscore matches any character, a percent sign anything. */
  lemma {:induction false} EscapingNeeded(c: char)
    requires !Special(c)
    ensures Like("%" + "_" + "%", [c]) && !Contains([c], "_") && !Like("%" + EscapeLike("_") + "%", [c])
    ensures Like("%" + "%" + "%", "") && !Contains("", "%") && !Like("%" + EscapeLike("%") + "%", "")
    ensures !Like("%" + "_" + "%", "")
  {
    EscapedLikeIsContains("_", [c]);
    EscapedLikeIsContains("%", "");
    assert ("%" + "_" + "%")[1..] == "_%" && "_%"[1..] == "%" && "%"[1..] == "";
    assert ("%" + "%" + "%")[1..] == "%%" && "%%"[1..] == "%";
    assert [c][1..] == "";
    assert Like("_%", [c]) && Like("%", "");
    assert !Contains([c], "_") by {
      assert [c][0..] == [c];
    }
  }

  /** A stored None is found under that name. */
  lemma {:induction false} NoneIsFound(email: Field)
    ensures MemoryMatches("none", Nothing, email)
  {
    var text := Lower(FieldText(Nothing) + " " + FieldText(email));
    assert text[0..] == text;
    assert text[..4] == "none" && Lower("none") == "none" by {
      LowerFixed("none");
      assert text[0] == 'n' && text[1] == 'o' && text[2] == 'n' && text[3] == 'e';
    }
    assert "none" <= text[0..];
  }
}
