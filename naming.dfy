/** The string expressions of index.js: `String.prototype.split`, `join`,
    the slug `file.split('.')[0]`, the title-cased display name and the
    size in kilobytes. */
module Naming {
  import opened Results

  /** Where the server publishes its assets (`http://localhost:${port}` with port 8080). */
  const ORIGIN: string := "http://localhost:8080"

  /** `s.split(sep)` for a one-character separator: every occurrence cuts,
      so empty tokens appear around adjacent, leading or trailing separators,
      and the empty string splits into one empty token. */
  function Split(s: string, sep: char): (r: seq<string>)
    ensures |r| >= 1
    ensures forall k :: 0 <= k < |r| ==> sep !in r[k]
    ensures |r[0]| <= |s| && r[0] == s[..|r[0]|]
    ensures |r[0]| < |s| ==> s[|r[0]|] == sep
    decreases |s|
  {
    if s == [] then [[]]
    else
      var rest := Split(s[1..], sep);
      if s[0] == sep then [[]] + rest
      else [[s[0]] + rest[0]] + rest[1..]
  }

  /** `ws.join(sep)`. */
  function JoinWith(ws: seq<string>, sep: char): (r: string)
    ensures |ws| >= 1 ==> |ws[0]| <= |r| && r[..|ws[0]|] == ws[0]
    ensures |ws| >= 2 ==> |ws[0]| < |r| && r[|ws[0]|] == sep
  {
    if |ws| == 0 then []
    else if |ws| == 1 then ws[0]
    else ws[0] + [sep] + JoinWith(ws[1..], sep)
  }

  /** Joining the tokens of a split gives back the string. */
  lemma {:induction false} JoinSplit(s: string, sep: char)
    ensures JoinWith(Split(s, sep), sep) == s
    decreases |s|
  {
    if s != [] {
      var rest := Split(s[1..], sep);
      JoinSplit(s[1..], sep);
      if s[0] == sep {
        assert ([[]] + rest)[1..] == rest;
      } else {
        var r := [[s[0]] + rest[0]] + rest[1..];
        if |rest| > 1 {
          assert r[1..] == rest[1..];
          assert JoinWith(rest, sep) == rest[0] + [sep] + JoinWith(rest[1..], sep);
          assert JoinWith(r, sep) == [s[0]] + (rest[0] + [sep] + JoinWith(rest[1..], sep));
        }
        assert s == [s[0]] + s[1..];
      }
    }
  }

  /** Splitting a word that has no separator in front of some tail extends the tail's first token. */
  lemma {:induction false} SplitWord(w: string, t: string, sep: char)
    requires sep !in w
    ensures Split(w + t, sep) == [w + Split(t, sep)[0]] + Split(t, sep)[1..]
    decreases |w|
  {
    if w != [] {
      assert (w + t)[1..] == w[1..] + t;
      SplitWord(w[1..], t, sep);
      assert [w[0]] + (w[1..] + Split(t, sep)[0]) == w + Split(t, sep)[0];
    } else {
      assert w + t == t;
      assert w + Split(t, sep)[0] == Split(t, sep)[0];
      assert Split(t, sep) == [Split(t, sep)[0]] + Split(t, sep)[1..];
    }
  }

  /** Splitting joined tokens that contain no separator gives back the tokens. */
  lemma {:induction false} SplitJoin(ws: seq<string>, sep: char)
    requires |ws| >= 1
    requires forall k :: 0 <= k < |ws| ==> sep !in ws[k]
    ensures Split(JoinWith(ws, sep), sep) == ws
  {
    if |ws| == 1 {
      SplitWord(ws[0], [], sep);
      assert ws[0] + [] == ws[0];
    } else {
      var tail := JoinWith(ws[1..], sep);
      assert forall k :: 0 <= k < |ws[1..]| ==> ws[1..][k] == ws[k + 1];
      SplitJoin(ws[1..], sep);
      SplitAfterSep(tail, sep);
      var after := [[]] + ws[1..];
      assert after[0] == [] && after[1..] == ws[1..];
      SplitWord(ws[0], [sep] + tail, sep);
      calc {
        Split(JoinWith(ws, sep), sep);
        { JoinCons(ws, sep); }
        Split(ws[0] + ([sep] + tail), sep);
        [ws[0] + after[0]] + after[1..];
        { assert ws[0] + [] == ws[0]; }
        [ws[0]] + ws[1..];
        ws;
      }
    }
  }

  /** A join of two or more words is the first word, the separator and the join of the rest. */
  lemma JoinCons(ws: seq<string>, sep: char)
    requires |ws| >= 2
    ensures JoinWith(ws, sep) == ws[0] + ([sep] + JoinWith(ws[1..], sep))
  {
    assert ws[0] + [sep] + JoinWith(ws[1..], sep) == ws[0] + ([sep] + JoinWith(ws[1..], sep));
  }

  /** A leading separator contributes an empty first token. */
  lemma SplitAfterSep(t: string, sep: char)
    ensures Split([sep] + t, sep) == [[]] + Split(t, sep)
  {
    assert ([sep] + t)[1..] == t;
  }

  /** The slug of a file name, `file.split('.')[0]`. */
  function Slug(name: string): (slug: string)
    ensures |slug| <= |name| && slug == name[..|slug|]
    ensures '.' !in slug
    ensures |slug| < |name| ==> name[|slug|] == '.'
  {
    Split(name, '.')[0]
  }

  /** A name made of a dot-free stem and an extension starting with `.` has the stem as its slug. */
  lemma SlugOfStem(stem: string, ext: string)
    requires '.' !in stem
    requires |ext| > 0 && ext[0] == '.'
    ensures Slug(stem + ext) == stem
  {
    var name := stem + ext;
    assert name[|stem|] == '.';
    assert forall j :: 0 <= j < |stem| ==> name[j] == stem[j] && stem[j] in stem;
  }

  /** A name without `.` is its own slug. */
  lemma SlugIdentity(name: string)
    requires '.' !in name
    ensures Slug(name) == name
  {
  }

  /** `c.toUpperCase()` for one character; only the ASCII letters are mapped. */
  function Upper(c: char): (u: char)
    ensures 'a' <= c <= 'z' ==> 'A' <= u <= 'Z' && u as int == c as int - 32
    ensures !('a' <= c <= 'z') ==> u == c
  {
    if 'a' <= c <= 'z' then (c as int - 32) as char else c
  }

  /** `word[0].toUpperCase() + word.slice(1)` for a non-empty word. */
  function Capitalize(word: string): (c: string)
    requires word != []
    ensures |c| == |word| && c[0] == Upper(word[0])
    ensures forall j :: 1 <= j < |word| ==> c[j] == word[j]
  {
    [Upper(word[0])] + word[1..]
  }

  /** The `.map` of the capitalizing callback over tokens that are all non-empty. */
  function CapitalizeAll(ws: seq<string>): (cs: seq<string>)
    requires forall k :: 0 <= k < |ws| ==> ws[k] != []
    ensures |cs| == |ws|
    ensures forall k :: 0 <= k < |ws| ==> cs[k] == Capitalize(ws[k])
  {
    seq(|ws|, k requires 0 <= k < |ws| => Capitalize(ws[k]))
  }

  /** The display name of a slug,
      `slug.split('-').map(word => word[0].toUpperCase() + word.slice(1)).join(' ')`;
      an empty token throws a TypeError. */
  function TitleCase(slug: string): (r: Result<string>)
    ensures r.Err? ==> r.error == TypeError
  {
    var tokens := Split(slug, '-');
    if [] in tokens then Err(TypeError)
    else Ok(JoinWith(CapitalizeAll(tokens), ' '))
  }

  /** A hyphen at position i ends an empty token: it is the last character or another hyphen follows. */
  predicate EmptyTokenAfter(s: string, i: int)
    requires 0 <= i < |s|
  {
    s[i] == '-' && (i + 1 == |s| || s[i + 1] == '-')
  }

  /** The slugs whose title case throws: empty, starting with `-`, ending with `-`, or holding `--`. */
  predicate HasEmptyToken(s: string)
  {
    s == [] || s[0] == '-' || exists i :: 0 <= i < |s| && EmptyTokenAfter(s, i)
  }

  /** Which tokens of a split are empty, stated on the characters of the string. */
  lemma {:induction false} SplitEmptyTokens(s: string)
    ensures Split(s, '-')[0] == [] <==> (s == [] || s[0] == '-')
    ensures (exists k :: 1 <= k < |Split(s, '-')| && Split(s, '-')[k] == [])
        <==> (exists i :: 0 <= i < |s| && EmptyTokenAfter(s, i))
    decreases |s|
  {
    if s != [] {
      SplitEmptyTokens(s[1..]);
      if s[0] == '-' {
        EmptyTokensAfterHyphen(s);
      } else {
        EmptyTokensAfterLetter(s);
      }
    }
  }

  /** The induction step of SplitEmptyTokens for a string that starts with a hyphen. */
  lemma EmptyTokensAfterHyphen(s: string)
    requires s != [] && s[0] == '-'
    requires Split(s[1..], '-')[0] == [] <==> (s[1..] == [] || s[1] == '-')
    requires (exists k :: 1 <= k < |Split(s[1..], '-')| && Split(s[1..], '-')[k] == [])
        <==> (exists i :: 0 <= i < |s[1..]| && EmptyTokenAfter(s[1..], i))
    ensures (exists k :: 1 <= k < |Split(s, '-')| && Split(s, '-')[k] == [])
        <==> (exists i :: 0 <= i < |s| && EmptyTokenAfter(s, i))
  {
    var rest := Split(s[1..], '-');
    assert Split(s, '-') == [[]] + rest;
    TokensAfterEmptyFirst(rest);
    EmptyTokenAfterHyphenShift(s);
  }

  /** After a leading empty token, a later empty token is any empty token of the rest. */
  lemma TokensAfterEmptyFirst(rest: seq<string>)
    requires |rest| >= 1
    ensures (exists k :: 1 <= k < |[[]] + rest| && ([[]] + rest)[k] == [])
        <==> (rest[0] == [] || exists k :: 1 <= k < |rest| && rest[k] == [])
  {
    var r: seq<string> := [[]] + rest;
    if exists k :: 1 <= k < |r| && r[k] == [] {
      var k :| 1 <= k < |r| && r[k] == [];
      assert rest[k - 1] == r[k];
    }
    if exists k :: 1 <= k < |rest| && rest[k] == [] {
      var k :| 1 <= k < |rest| && rest[k] == [];
      assert r[k + 1] == rest[k];
    }
    if rest[0] == [] {
      assert r[1] == rest[0];
    }
  }

  /** In a string starting with a hyphen, an empty token is ended either by that
      hyphen (the rest is empty or starts with a hyphen) or by one of the rest. */
  lemma EmptyTokenAfterHyphenShift(s: string)
    requires s != [] && s[0] == '-'
    ensures (exists i :: 0 <= i < |s| && EmptyTokenAfter(s, i))
        <==> ((s[1..] == [] || s[1] == '-') || exists i :: 0 <= i < |s[1..]| && EmptyTokenAfter(s[1..], i))
  {
    var t := s[1..];
    if exists i :: 0 <= i < |s| && EmptyTokenAfter(s, i) {
      var i :| 0 <= i < |s| && EmptyTokenAfter(s, i);
      if i > 0 {
        assert t[i - 1] == s[i];
        assert EmptyTokenAfter(t, i - 1);
      }
    }
    if s[1..] == [] || s[1] == '-' {
      assert EmptyTokenAfter(s, 0);
    }
    if exists j :: 0 <= j < |t| && EmptyTokenAfter(t, j) {
      var j :| 0 <= j < |t| && EmptyTokenAfter(t, j);
      assert t[j] == s[j + 1];
      assert EmptyTokenAfter(s, j + 1);
    }
  }

  /** The induction step of SplitEmptyTokens for a string that starts with another character. */
  lemma EmptyTokensAfterLetter(s: string)
    requires s != [] && s[0] != '-'
    requires (exists k :: 1 <= k < |Split(s[1..], '-')| && Split(s[1..], '-')[k] == [])
        <==> (exists i :: 0 <= i < |s[1..]| && EmptyTokenAfter(s[1..], i))
    ensures (exists k :: 1 <= k < |Split(s, '-')| && Split(s, '-')[k] == [])
        <==> (exists i :: 0 <= i < |s| && EmptyTokenAfter(s, i))
  {
    var rest := Split(s[1..], '-');
    assert Split(s, '-') == [[s[0]] + rest[0]] + rest[1..];
    LaterEmptyTokenShift(s);
    LaterTokensOfMerged([s[0]] + rest[0], rest);
  }

  /** Replacing the first token keeps the empty tokens after it. */
  lemma LaterTokensOfMerged(first: string, rest: seq<string>)
    requires |rest| >= 1
    ensures (exists k :: 1 <= k < |[first] + rest[1..]| && ([first] + rest[1..])[k] == [])
        <==> (exists k :: 1 <= k < |rest| && rest[k] == [])
  {
    var r := [first] + rest[1..];
    if exists k :: 1 <= k < |r| && r[k] == [] {
      var k :| 1 <= k < |r| && r[k] == [];
      assert rest[k] == r[k];
    }
    if exists k :: 1 <= k < |rest| && rest[k] == [] {
      var k :| 1 <= k < |rest| && rest[k] == [];
      assert r[k] == rest[k];
    }
  }

  /** A hyphen ending an empty token sits one place further right in a longer string. */
  lemma LaterEmptyTokenShift(s: string)
    requires s != [] && s[0] != '-'
    ensures (exists i :: 0 <= i < |s| && EmptyTokenAfter(s, i))
        <==> (exists i :: 0 <= i < |s[1..]| && EmptyTokenAfter(s[1..], i))
  {
    var t := s[1..];
    if exists i :: 0 <= i < |s| && EmptyTokenAfter(s, i) {
      var i :| 0 <= i < |s| && EmptyTokenAfter(s, i);
      assert t[i - 1] == s[i];
      assert EmptyTokenAfter(t, i - 1);
    }
    if exists j :: 0 <= j < |t| && EmptyTokenAfter(t, j) {
      var j :| 0 <= j < |t| && EmptyTokenAfter(t, j);
      assert t[j] == s[j + 1];
      assert EmptyTokenAfter(s, j + 1);
    }
  }

  /** The title case of a slug is defined exactly when the slug has no empty hyphen token. */
  lemma TitleCaseDefined(slug: string)
    ensures TitleCase(slug).Ok? <==> !HasEmptyToken(slug)
  {
    var tokens := Split(slug, '-');
    SplitEmptyTokens(slug);
    if [] in tokens {
      var k :| 0 <= k < |tokens| && tokens[k] == [];
      assert HasEmptyToken(slug);
    }
    if HasEmptyToken(slug) {
      if !(slug == [] || slug[0] == '-') {
        assert exists i :: 0 <= i < |slug| && EmptyTokenAfter(slug, i);
        var k :| 1 <= k < |tokens| && tokens[k] == [];
        assert [] in tokens;
      } else {
        assert tokens[0] == [];
      }
    }
  }

  /** Character i of the display name: hyphens become spaces, the first letter of
      each token is upper-cased and every other character is kept. */
  function TitleChar(s: string, i: int): char
    requires 0 <= i < |s|
  {
    if s[i] == '-' then ' '
    else if i == 0 || s[i - 1] == '-' then Upper(s[i])
    else s[i]
  }

  /** Capitalizing and joining with spaces rewrites the hyphen-joined string character by character. */
  lemma {:induction false} CapitalizedJoinAt(ws: seq<string>)
    requires forall k :: 0 <= k < |ws| ==> ws[k] != [] && '-' !in ws[k]
    ensures |JoinWith(CapitalizeAll(ws), ' ')| == |JoinWith(ws, '-')|
    ensures forall i :: 0 <= i < |JoinWith(ws, '-')| ==>
              JoinWith(CapitalizeAll(ws), ' ')[i] == TitleChar(JoinWith(ws, '-'), i)
  {
    var s := JoinWith(ws, '-');
    var c := JoinWith(CapitalizeAll(ws), ' ');
    if |ws| == 1 {
      assert s == ws[0];
      assert c == Capitalize(ws[0]);
      forall i | 0 <= i < |s| ensures c[i] == TitleChar(s, i) {
        assert s[i] in ws[0];
        if i > 0 { assert s[i - 1] in ws[0]; }
      }
    } else if |ws| > 1 {
      var w := ws[0];
      var t := JoinWith(ws[1..], '-');
      var ct := JoinWith(CapitalizeAll(ws[1..]), ' ');
      CapitalizedJoinAt(ws[1..]);
      assert CapitalizeAll(ws)[1..] == CapitalizeAll(ws[1..]);
      assert s == w + ['-'] + t;
      assert c == Capitalize(w) + [' '] + ct;
      assert t != [] && t[0] != '-' by {
        SplitJoin(ws[1..], '-');
        assert Split(t, '-')[0] == ws[1];
      }
      forall i | 0 <= i < |s| ensures c[i] == TitleChar(s, i) {
        if i < |w| {
          assert s[i] == w[i] && s[i] in w;
          if i > 0 { assert s[i - 1] == w[i - 1] && s[i - 1] in w; }
        } else if i == |w| {
        } else {
          var j := i - |w| - 1;
          assert s[i] == t[j] && c[i] == ct[j];
          if j > 0 { assert s[i - 1] == t[j - 1]; }
        }
      }
    }
  }

  /** The display name has the slug's length, and character i is TitleChar(slug, i). */
  lemma TitleCaseAt(slug: string)
    requires TitleCase(slug).Ok?
    ensures |TitleCase(slug).value| == |slug|
    ensures forall i :: 0 <= i < |slug| ==> TitleCase(slug).value[i] == TitleChar(slug, i)
  {
    var tokens := Split(slug, '-');
    JoinSplit(slug, '-');
    CapitalizedJoinAt(tokens);
  }

  /** Upper-casing never produces a space. */
  lemma CapitalizeNoSpace(w: string)
    requires w != [] && ' ' !in w
    ensures ' ' !in Capitalize(w)
  {
  }

  /** A slug without spaces has as many display-name words as hyphen tokens:
      the words are the tokens, each with its first character upper-cased. */
  lemma TitleCaseWords(slug: string)
    requires TitleCase(slug).Ok?
    requires ' ' !in slug
    ensures Split(TitleCase(slug).value, ' ') == CapitalizeAll(Split(slug, '-'))
    ensures |Split(TitleCase(slug).value, ' ')| == |Split(slug, '-')|
  {
    var tokens := Split(slug, '-');
    var caps := CapitalizeAll(tokens);
    JoinSplit(slug, '-');
    forall k | 0 <= k < |tokens| ensures ' ' !in caps[k] {
      forall j | 0 <= j < |tokens[k]| ensures tokens[k][j] != ' ' {
        TokenCharIn(tokens, '-', k, j);
      }
      CapitalizeNoSpace(tokens[k]);
    }
    SplitJoin(caps, ' ');
  }

  /** Every character of a token occurs in the joined string. */
  lemma {:induction false} TokenCharIn(ws: seq<string>, sep: char, k: int, j: int)
    requires 0 <= k < |ws| && 0 <= j < |ws[k]|
    ensures ws[k][j] in JoinWith(ws, sep)
  {
    if |ws| > 1 {
      if k == 0 {
        assert JoinWith(ws, sep)[j] == ws[0][j];
      } else {
        TokenCharIn(ws[1..], sep, k - 1, j);
        var t := JoinWith(ws[1..], sep);
        var idx :| 0 <= idx < |t| && t[idx] == ws[k][j];
        assert JoinWith(ws, sep)[|ws[0]| + 1 + idx] == t[idx];
      }
    }
  }

  /** The reported size, `stats.size / 1000`, exact rather than a double. */
  function SizeInKb(bytes: nat): (kb: real)
    ensures kb * 1000.0 == bytes as real
    ensures kb >= 0.0
  {
    bytes as real / 1000.0
  }
}
