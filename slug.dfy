/** `_slugify` of app/routers/notes.py: the file name stem of an exported
    note. Every maximal run of characters other than ASCII letters and
    digits becomes one hyphen, hyphens are stripped from both ends, the
    result is lower-cased, and an empty result falls back to "note". */
module Slug {
  import opened Text

  predicate IsAlnum(c: char) {
    'a' <= c <= 'z' || 'A' <= c <= 'Z' || '0' <= c <= '9'
  }

  predicate IsDash(c: char) {
    c == '-'
  }

  /** `re.sub(r"[^a-zA-Z0-9]+", "-", s)`. `inRun` says that the character
      just before `s` belonged to a run that has already been replaced. */
  function CollapseRuns(s: string, inRun: bool): (r: string)
    ensures |r| <= |s|
  {
    if s == [] then []
    else if IsAlnum(s[0]) then [s[0]] + CollapseRuns(s[1..], false)
    else if inRun then CollapseRuns(s[1..], true)
    else "-" + CollapseRuns(s[1..], true)
  }

  function Slugify(text: string): (r: string)
    ensures r != []
    ensures r == "note" || |r| <= |text|
  {
    var slug := Lower(Strip(CollapseRuns(text, false), IsDash));
    if slug == [] then "note" else slug
  }

  /** Letters and digits with single hyphens between them. */
  predicate Hyphenated(s: string) {
    && (forall i :: 0 <= i < |s| ==> IsAlnum(s[i]) || s[i] == '-')
    && (forall i :: 0 <= i < |s| - 1 ==> s[i] == '-' ==> s[i + 1] != '-')
  }

  /** The shape of every slug: non-empty, lower-case letters, digits and
      single hyphens, and no hyphen at either end. */
  predicate IsSlug(s: string) {
    && s != []
    && (forall i :: 0 <= i < |s| ==> 'a' <= s[i] <= 'z' || '0' <= s[i] <= '9' || s[i] == '-')
    && s[0] != '-'
    && s[|s| - 1] != '-'
    && (forall i :: 0 <= i < |s| - 1 ==> s[i] == '-' ==> s[i + 1] != '-')
  }

  // ---------------------------------------------------------------------------
  // The shape of the result

  lemma {:induction false} CollapseRunsShape(s: string, inRun: bool)
    ensures Hyphenated(CollapseRuns(s, inRun))
    ensures inRun && CollapseRuns(s, inRun) != [] ==> CollapseRuns(s, inRun)[0] != '-'
  {
    if s != [] {
      CollapseRunsShape(s[1..], !IsAlnum(s[0]));
    }
  }

  lemma HyphenatedSlice(s: string, lo: int, hi: int)
    requires Hyphenated(s) && 0 <= lo <= hi <= |s|
    ensures Hyphenated(s[lo..hi])
  {
    forall i | 0 <= i < hi - lo - 1
      ensures s[lo..hi][i] == '-' ==> s[lo..hi][i + 1] != '-'
    {
      assert s[lo..hi][i] == s[lo + i] && s[lo..hi][i + 1] == s[lo + i + 1];
    }
  }

  /** Stripping the end hyphens of a hyphenated string leaves a hyphenated
      string with a letter or digit at each end. */
  lemma StripDashShape(c: string)
    requires Hyphenated(c)
    ensures var st := Strip(c, IsDash);
      Hyphenated(st) && (st == [] || (st[0] != '-' && st[|st| - 1] != '-'))
  {
    var l := StripLeft(c, IsDash);
    HyphenatedSlice(c, |c| - |l|, |c|);
    var st := StripRight(l, IsDash);
    HyphenatedSlice(l, 0, |st|);
    assert st != [] ==> st[0] == l[0];
  }

  lemma LowerKeepsShape(st: string)
    requires Hyphenated(st) && st != [] && st[0] != '-' && st[|st| - 1] != '-'
    ensures IsSlug(Lower(st))
  {
    var slug := Lower(st);
    assert forall i :: 0 <= i < |slug| ==> slug[i] == LowerChar(st[i]);
  }

  /** The last two steps of `_slugify` turn a stripped hyphenated string
      into a slug. */
  lemma SlugOfStripped(st: string)
    requires Hyphenated(st) && (st == [] || (st[0] != '-' && st[|st| - 1] != '-'))
    ensures IsSlug(if Lower(st) == [] then "note" else Lower(st))
  {
    if st != [] {
      LowerKeepsShape(st);
    }
  }

  /** `_slugify` always yields a slug. */
  lemma SlugifyIsSlug(text: string)
    ensures IsSlug(Slugify(text))
  {
    var c := CollapseRuns(text, false);
    CollapseRunsShape(text, false);
    StripDashShape(c);
    SlugOfStripped(Strip(c, IsDash));
  }

  // ---------------------------------------------------------------------------
  // A slug is its own slug

  lemma {:induction false} CollapseRunsKeeps(s: string, inRun: bool)
    requires Hyphenated(s)
    requires inRun && s != [] ==> s[0] != '-'
    ensures CollapseRuns(s, inRun) == s
  {
    if s != [] {
      assert Hyphenated(s[1..]);
      CollapseRunsKeeps(s[1..], !IsAlnum(s[0]));
    }
  }

  lemma SlugifyKeepsSlug(s: string)
    requires IsSlug(s)
    ensures Slugify(s) == s
  {
    CollapseRunsKeeps(s, false);
    StripKeeps(s, IsDash);
    LowerIsCanonical(s, s);
  }

  /** Slugifying twice is slugifying once. */
  lemma SlugifyIdempotent(text: string)
    ensures Slugify(Slugify(text)) == Slugify(text)
  {
    SlugifyIsSlug(text);
    SlugifyKeepsSlug(Slugify(text));
  }

  // ---------------------------------------------------------------------------
  // What the slug keeps of the text

  /** The letters and digits of `s`, in order. */
  function AlnumOf(s: string): string {
    if s == [] then [] else (if IsAlnum(s[0]) then [s[0]] else []) + AlnumOf(s[1..])
  }

  lemma {:induction false} AlnumOfConcat(a: string, b: string)
    ensures AlnumOf(a + b) == AlnumOf(a) + AlnumOf(b)
  {
    if a == [] {
      assert a + b == b;
    } else {
      var head := if IsAlnum(a[0]) then [a[0]] else [];
      assert (a + b)[0] == a[0] && (a + b)[1..] == a[1..] + b;
      AlnumOfConcat(a[1..], b);
      calc {
        AlnumOf(a + b);
        head + AlnumOf(a[1..] + b);
        head + (AlnumOf(a[1..]) + AlnumOf(b));
        (head + AlnumOf(a[1..])) + AlnumOf(b);
      }
    }
  }

  lemma {:induction false} AlnumOfEmpty(s: string)
    ensures AlnumOf(s) == [] <==> forall i :: 0 <= i < |s| ==> !IsAlnum(s[i])
  {
    if s != [] {
      AlnumOfEmpty(s[1..]);
      assert forall i :: 1 <= i < |s| ==> s[i] == s[1..][i - 1];
    }
  }

  lemma {:induction false} AlnumOfCollapseRuns(s: string, inRun: bool)
    ensures AlnumOf(CollapseRuns(s, inRun)) == AlnumOf(s)
  {
    if s != [] {
      AlnumOfCollapseRuns(s[1..], !IsAlnum(s[0]));
      var rest := CollapseRuns(s[1..], !IsAlnum(s[0]));
      if IsAlnum(s[0]) {
        AlnumOfConcat([s[0]], rest);
      } else if !inRun {
        AlnumOfConcat("-", rest);
      }
    }
  }

  lemma {:induction false} AlnumOfLower(s: string)
    ensures AlnumOf(Lower(s)) == Lower(AlnumOf(s))
  {
    if s != [] {
      AlnumOfLower(s[1..]);
      assert Lower(s)[1..] == Lower(s[1..]);
      var head := if IsAlnum(s[0]) then [s[0]] else [];
      assert Lower(head + AlnumOf(s[1..])) == Lower(head) + Lower(AlnumOf(s[1..]));
    }
  }

  lemma {:induction false} AlnumOfStripLeft(s: string)
    ensures AlnumOf(StripLeft(s, IsDash)) == AlnumOf(s)
    decreases |s|
  {
    if s != [] && IsDash(s[0]) {
      AlnumOfStripLeft(s[1..]);
    }
  }

  lemma {:induction false} AlnumOfStripRight(s: string)
    ensures AlnumOf(StripRight(s, IsDash)) == AlnumOf(s)
    decreases |s|
  {
    if s != [] && IsDash(s[|s| - 1]) {
      var init := s[..|s| - 1];
      AlnumOfStripRight(init);
      assert s == init + [s[|s| - 1]];
      AlnumOfConcat(init, [s[|s| - 1]]);
    }
  }

  /** Stripping hyphens keeps every letter and digit, in order. */
  lemma AlnumOfStripDash(s: string)
    ensures AlnumOf(Strip(s, IsDash)) == AlnumOf(s)
  {
    AlnumOfStripLeft(s);
    AlnumOfStripRight(StripLeft(s, IsDash));
  }

  /** The slug keeps exactly the letters and digits of the title, lower-cased;
      a title without any of them gets the fallback "note". */
  lemma SlugifyKeepsAlnums(text: string)
    ensures AlnumOf(text) == [] ==> Slugify(text) == "note"
    ensures AlnumOf(text) != [] ==> AlnumOf(Slugify(text)) == Lower(AlnumOf(text))
  {
    var c := CollapseRuns(text, false);
    var st := Strip(c, IsDash);
    AlnumOfCollapseRuns(text, false);
    AlnumOfStripDash(c);
    AlnumOfLower(st);
    if AlnumOf(text) == [] {
      CollapseRunsShape(text, false);
      StripDashShape(c);
      AlnumOfEmpty(st);
    }
  }
}
