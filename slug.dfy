/** `slugify`: lower-case the text, delete the characters that are neither
    word characters, whitespace nor `-`, replace each run of whitespace, `_`
    and `-` by one `-`, and trim `-` from both ends. Each regular-expression
    stage is a function of its own. */
module Slug {
  import opened Chars

  predicate NoUpper(s: string) { forall i :: 0 <= i < |s| ==> !IsUpper(s[i]) }

  /** Stage 1, `toLowerCase()`. */
  function Lower(s: string): (r: string)
    ensures |r| == |s| && NoUpper(r)
    ensures forall i :: 0 <= i < |s| ==> r[i] == LowerChar(s[i])
  {
    if s == [] then [] else [LowerChar(s[0])] + Lower(s[1..])
  }

  /** The characters that `/[^\w\s-]/g` does not match. */
  predicate Kept(c: char) { IsWord(c) || IsSpace(c) || c == '-' }

  predicate AllKept(s: string) { forall i :: 0 <= i < |s| ==> Kept(s[i]) }

  /** The characters of the class `[\s_-]`. */
  predicate IsSep(c: char) { IsSpace(c) || c == '_' || c == '-' }

  predicate AllAlnumOrSep(s: string) { forall i :: 0 <= i < |s| ==> IsAlnum(s[i]) || IsSep(s[i]) }

  /** Stage 2, `replace(/[^\w\s-]/g, '')`: every other character is deleted. */
  function Strip(s: string): (r: string)
    ensures |r| <= |s| && AllKept(r)
    ensures AllKept(s) ==> r == s
    ensures NoUpper(s) ==> AllAlnumOrSep(r)
  {
    if s == [] then []
    else if Kept(s[0]) then [s[0]] + Strip(s[1..])
    else Strip(s[1..])
  }

  /** The text after the longest leading run of separators. */
  function DropSeps(s: string): (r: string)
    ensures |r| <= |s|
    ensures |r| > 0 ==> !IsSep(r[0])
    ensures AllAlnumOrSep(s) ==> AllAlnumOrSep(r)
  {
    if |s| > 0 && IsSep(s[0]) then DropSeps(s[1..]) else s
  }

  /** What `DropSeps` skips is a prefix made only of separators. */
  lemma {:induction false} DropSepsSuffix(s: string)
    ensures DropSeps(s) == s[|s| - |DropSeps(s)|..]
    ensures forall i :: 0 <= i < |s| - |DropSeps(s)| ==> IsSep(s[i])
  {
    if |s| > 0 && IsSep(s[0]) {
      DropSepsSuffix(s[1..]);
      assert forall i :: 1 <= i < |s| ==> s[i] == s[1..][i - 1];
    }
  }

  predicate NoDoubleHyphen(t: string)
  {
    forall i :: 0 <= i < |t| - 1 ==> t[i] != '-' || t[i + 1] != '-'
  }

  predicate IsSlugChar(c: char) { IsAlnum(c) || c == '-' }

  predicate AllSlugChars(t: string) { forall i :: 0 <= i < |t| ==> IsSlugChar(t[i]) }

  /** Stage 3, `replace(/[\s_-]+/g, '-')`: the global, greedy match replaces
      each maximal run of separators by a single hyphen. */
  function Collapse(s: string): (r: string)
    decreases |s|
    ensures NoDoubleHyphen(r)
    ensures |s| > 0 && !IsSep(s[0]) ==> |r| > 0 && r[0] == s[0]
    ensures AllAlnumOrSep(s) ==> AllSlugChars(r)
  {
    if s == [] then []
    else if IsSep(s[0]) then ['-'] + Collapse(DropSeps(s))
    else [s[0]] + Collapse(s[1..])
  }

  /** `^-+` : the text after its leading hyphens. */
  function TrimStart(s: string): (r: string)
    ensures |r| <= |s|
    ensures |r| > 0 ==> r[0] != '-'
  {
    if |s| > 0 && s[0] == '-' then TrimStart(s[1..]) else s
  }

  /** What `TrimStart` removes is a prefix made only of hyphens. */
  lemma {:induction false} TrimStartSuffix(s: string)
    ensures TrimStart(s) == s[|s| - |TrimStart(s)|..]
    ensures forall i :: 0 <= i < |s| - |TrimStart(s)| ==> s[i] == '-'
  {
    if |s| > 0 && s[0] == '-' {
      TrimStartSuffix(s[1..]);
      assert forall i :: 1 <= i < |s| ==> s[i] == s[1..][i - 1];
    }
  }

  /** `-+$` : the text before its trailing hyphens. */
  function TrimEnd(s: string): (r: string)
    ensures |r| <= |s|
    ensures |r| > 0 ==> r[|r| - 1] != '-'
  {
    if |s| > 0 && s[|s| - 1] == '-' then TrimEnd(s[..|s| - 1]) else s
  }

  /** What `TrimEnd` removes is a suffix made only of hyphens. */
  lemma {:induction false} TrimEndPrefix(s: string)
    decreases |s|
    ensures TrimEnd(s) == s[..|TrimEnd(s)|]
    ensures forall i :: |TrimEnd(s)| <= i < |s| ==> s[i] == '-'
  {
    if |s| > 0 && s[|s| - 1] == '-' {
      var init := s[..|s| - 1];
      TrimEndPrefix(init);
      assert forall i :: 0 <= i < |init| ==> init[i] == s[i];
    }
  }

  /** Stage 4, `replace(/^-+|-+$/g, '')`: without the `m` flag `^` and `$`
      match only at the two ends, so the leading and the trailing run of
      hyphens are deleted and nothing else. */
  function Trim(s: string): (r: string)
    ensures |r| <= |s|
    ensures |r| > 0 ==> r[0] != '-' && r[|r| - 1] != '-'
    ensures AllSlugChars(s) ==> AllSlugChars(r)
    ensures NoDoubleHyphen(s) ==> NoDoubleHyphen(r)
  {
    var t := TrimStart(s);
    TrimStartSuffix(s);
    SliceKeeps(s, |s| - |t|, |s|);
    var r := TrimEnd(t);
    TrimEndPrefix(t);
    SliceKeeps(t, 0, |r|);
    r
  }

  lemma SliceKeeps(s: string, lo: nat, hi: nat)
    requires lo <= hi <= |s|
    ensures NoDoubleHyphen(s) ==> NoDoubleHyphen(s[lo..hi])
    ensures AllSlugChars(s) ==> AllSlugChars(s[lo..hi])
  {
    var t := s[lo..hi];
    assert forall i :: 0 <= i < |t| ==> t[i] == s[lo + i];
  }

  /** A slug: lower-case letters, digits and single hyphens, with no hyphen at either end. */
  predicate IsSlug(t: string)
  {
    && AllSlugChars(t)
    && NoDoubleHyphen(t)
    && (|t| > 0 ==> t[0] != '-' && t[|t| - 1] != '-')
  }

  /** The lower-case letters and digits of `s`, in order. */
  function Alnums(s: string): (r: string)
    ensures |r| <= |s|
    ensures forall i :: 0 <= i < |r| ==> IsAlnum(r[i])
  {
    if s == [] then []
    else if IsAlnum(s[0]) then [s[0]] + Alnums(s[1..])
    else Alnums(s[1..])
  }

  /** `s` with its hyphens deleted. */
  function DropHyphens(s: string): (r: string)
    ensures |r| <= |s|
    ensures forall i :: 0 <= i < |r| ==> r[i] != '-'
  {
    if s == [] then []
    else if s[0] != '-' then [s[0]] + DropHyphens(s[1..])
    else DropHyphens(s[1..])
  }

  function Slugify(text: string): (r: string)
    ensures IsSlug(r)
    ensures DropHyphens(r) == Alnums(Lower(text))
  {
    var lowered := Lower(text);
    var stripped := Strip(lowered);
    var collapsed := Collapse(stripped);
    var r := Trim(collapsed);
    AlnumsOfStages(lowered, stripped, collapsed);
    r
  }

  // --- Properties of slugify ---

  /** A slug, and nothing else, is left unchanged: the fixed points of `slugify` are exactly the slugs. */
  lemma SlugifyFixedPoints(t: string)
    ensures Slugify(t) == t <==> IsSlug(t)
  {
    if IsSlug(t) {
      assert Lower(t) == t;
      assert AllKept(t);
      CollapseOfSlug(t);
      assert TrimStart(t) == t;
      assert TrimEnd(t) == t;
    }
  }

  /** `slugify(slugify(s)) == slugify(s)`. */
  lemma SlugifyIdempotent(text: string)
    ensures Slugify(Slugify(text)) == Slugify(text)
  {
    SlugifyFixedPoints(Slugify(text));
  }

  /** The slug is empty exactly when the text holds no ASCII letter or digit. */
  lemma SlugifyEmpty(text: string)
    ensures Slugify(text) == [] <==> forall i :: 0 <= i < |text| ==> !IsLetterOrDigit(text[i])
  {
    var r := Slugify(text);
    var lowered := Lower(text);
    AlnumsEmpty(lowered);
    if r != [] {
      assert DropHyphens(r) != [] by {
        assert r[0] != '-';
        assert DropHyphens(r) == [r[0]] + DropHyphens(r[1..]);
      }
    }
  }

  /** A character that stage 2 deletes never matters, not even as a word break: removing it
      from anywhere in the text leaves the slug as it was. */
  lemma SlugifyIgnoresDeleted(a: string, c: char, b: string)
    ensures !Kept(c) ==> Slugify(a + [c] + b) == Slugify(a + b)
  {
    if !Kept(c) {
      StripLowerIgnoresDeleted(a, c, b);
    }
  }

  lemma StripLowerIgnoresDeleted(a: string, c: char, b: string)
    requires !Kept(c)
    ensures Strip(Lower(a + [c] + b)) == Strip(Lower(a + b))
  {
    LowerSplit(a, c, b);
    LowerAppend(a, b);
    StripChar(c);
    StripIgnoresDeleted(Lower(a), LowerChar(c), Lower(b));
  }

  lemma LowerSplit(a: string, c: char, b: string)
    ensures Lower(a + [c] + b) == Lower(a) + [LowerChar(c)] + Lower(b)
  {
    LowerAppend(a + [c], b);
    LowerAppend(a, [c]);
    assert Lower([c]) == [LowerChar(c)];
  }

  lemma StripIgnoresDeleted(x: string, d: char, y: string)
    requires !Kept(d)
    ensures Strip(x + [d] + y) == Strip(x + y)
  {
    StripChar(d);
    StripAppend(x + [d], y);
    StripAppend(x, [d]);
    StripAppend(x, y);
  }

  lemma {:induction false} AlnumsEmpty(s: string)
    ensures Alnums(s) == [] <==> forall i :: 0 <= i < |s| ==> !IsAlnum(s[i])
  {
    if s != [] {
      AlnumsEmpty(s[1..]);
      assert forall i :: 1 <= i < |s| ==> s[i] == s[1..][i - 1];
    }
  }

  /** Collapsing leaves a string of slug characters without doubled hyphens as it is. */
  lemma {:induction false} CollapseOfSlug(t: string)
    requires AllSlugChars(t) && NoDoubleHyphen(t)
    ensures Collapse(t) == t
  {
    if t != [] {
      var c, rest := t[0], t[1..];
      assert t == [c] + rest;
      SliceKeeps(t, 1, |t|);
      CollapseOfSlug(rest);
      if c == '-' {
        CollapseSepHead(t);
        DropSepsStep(t);
        if rest != [] {
          assert rest[0] == t[1];
          AlnumIsNotSep(rest[0]);
        }
        DropSepsStop(rest);
      } else {
        AlnumIsNotSep(c);
        CollapseCons(c, rest);
      }
    }
  }

  // --- One-step unfoldings, kept apart so that the inductive proofs stay small ---

  lemma AlnumIsNotSep(c: char)
    requires IsAlnum(c)
    ensures !IsSep(c)
  {
  }

  lemma SepIsNotAlnum(c: char)
    requires IsSep(c)
    ensures !IsAlnum(c)
  {
  }

  lemma DropSepsStep(s: string)
    requires s != [] && IsSep(s[0])
    ensures DropSeps(s) == DropSeps(s[1..])
  {
  }

  lemma DropSepsStop(s: string)
    requires s == [] || !IsSep(s[0])
    ensures DropSeps(s) == s
  {
  }

  lemma CollapseSepHead(s: string)
    requires s != [] && IsSep(s[0])
    ensures Collapse(s) == "-" + Collapse(DropSeps(s))
  {
  }

  lemma CollapseCons(c: char, t: string)
    requires !IsSep(c)
    ensures Collapse([c] + t) == [c] + Collapse(t)
  {
    var s := [c] + t;
    assert s[0] == c && s[1..] == t;
  }

  lemma AlnumsCons(c: char, t: string)
    ensures Alnums([c] + t) == (if IsAlnum(c) then [c] else []) + Alnums(t)
  {
    var s := [c] + t;
    assert s[0] == c && s[1..] == t;
  }

  // --- Stage facts used by Slugify ---

  lemma AlnumsOfStages(lowered: string, stripped: string, collapsed: string)
    requires stripped == Strip(lowered) && collapsed == Collapse(stripped)
    requires AllSlugChars(Trim(collapsed))
    ensures DropHyphens(Trim(collapsed)) == Alnums(lowered)
  {
    DropHyphensOfSlugChars(Trim(collapsed));
    TrimAlnums(collapsed);
    CollapseAlnums(stripped);
    StripAlnums(lowered);
  }

  lemma {:induction false} DropHyphensOfSlugChars(t: string)
    requires AllSlugChars(t)
    ensures DropHyphens(t) == Alnums(t)
  {
    if t != [] {
      assert AllSlugChars(t[1..]) by {
        assert forall i :: 0 <= i < |t[1..]| ==> t[1..][i] == t[i + 1];
      }
      DropHyphensOfSlugChars(t[1..]);
    }
  }

  lemma {:induction false} StripAlnums(s: string)
    ensures Alnums(Strip(s)) == Alnums(s)
  {
    if s != [] {
      StripAlnums(s[1..]);
      if Kept(s[0]) {
        var t := [s[0]] + Strip(s[1..]);
        assert t[0] == s[0] && t[1..] == Strip(s[1..]);
      }
    }
  }

  lemma {:induction false} DropSepsAlnums(s: string)
    ensures Alnums(DropSeps(s)) == Alnums(s)
  {
    if |s| > 0 && IsSep(s[0]) {
      DropSepsAlnums(s[1..]);
      DropSepsStep(s);
      SepIsNotAlnum(s[0]);
      assert s == [s[0]] + s[1..];
      AlnumsCons(s[0], s[1..]);
      assert Alnums(s) == [] + Alnums(s[1..]);
    }
  }

  lemma {:induction false} CollapseAlnums(s: string)
    decreases |s|
    ensures Alnums(Collapse(s)) == Alnums(s)
  {
    if s == [] {
    } else if IsSep(s[0]) {
      var d := DropSeps(s);
      CollapseAlnums(d);
      DropSepsAlnums(s);
      CollapseSepHead(s);
      AlnumsCons('-', Collapse(d));
    } else {
      var c, rest := s[0], s[1..];
      assert s == [c] + rest;
      CollapseAlnums(rest);
      CollapseCons(c, rest);
      AlnumsCons(c, Collapse(rest));
      AlnumsCons(c, rest);
    }
  }

  lemma {:induction false} AlnumsAppend(a: string, b: string)
    ensures Alnums(a + b) == Alnums(a) + Alnums(b)
  {
    if a == [] {
      assert a + b == b;
    } else {
      assert (a + b)[0] == a[0];
      assert (a + b)[1..] == a[1..] + b;
      AlnumsAppend(a[1..], b);
    }
  }

  lemma {:induction false} TrimStartAlnums(s: string)
    ensures Alnums(TrimStart(s)) == Alnums(s)
  {
    if |s| > 0 && s[0] == '-' {
      TrimStartAlnums(s[1..]);
    }
  }

  lemma {:induction false} TrimEndAlnums(s: string)
    decreases |s|
    ensures Alnums(TrimEnd(s)) == Alnums(s)
  {
    if |s| > 0 && s[|s| - 1] == '-' {
      var init := s[..|s| - 1];
      TrimEndAlnums(init);
      assert s == init + ['-'];
      AlnumsAppend(init, ['-']);
    }
  }

  lemma TrimAlnums(s: string)
    ensures Alnums(Trim(s)) == Alnums(s)
  {
    TrimStartAlnums(s);
    TrimEndAlnums(TrimStart(s));
  }

  // --- Stage 1 and stage 2 act on each character on its own ---

  lemma LowerAppend(a: string, b: string)
    ensures Lower(a + b) == Lower(a) + Lower(b)
  {
    var l, r := Lower(a + b), Lower(a) + Lower(b);
    assert |l| == |r|;
    forall i | 0 <= i < |l| ensures l[i] == r[i] {
      if i < |a| { assert (a + b)[i] == a[i]; } else { assert (a + b)[i] == b[i - |a|]; }
    }
  }

  /** Stage 2 on one character: kept characters (word characters, whitespace and `-`)
      stay, every other one is deleted. */
  lemma StripChar(c: char)
    ensures Strip([c]) == (if Kept(c) then [c] else [])
    ensures Kept(LowerChar(c)) <==> Kept(c)
  {
    assert [c][1..] == [];
  }

  /** Stage 2 distributes over concatenation; with `StripChar` this fixes `Strip` on every input:
      it keeps exactly the kept characters, in their order, and adds nothing. */
  lemma {:induction false} StripAppend(a: string, b: string)
    ensures Strip(a + b) == Strip(a) + Strip(b)
  {
    if a == [] {
      assert a + b == b;
    } else {
      assert (a + b)[0] == a[0] && (a + b)[1..] == a[1..] + b;
      StripAppend(a[1..], b);
    }
  }
}
