/** A second, independent description of `slugify`: split the stripped,
    lower-cased text at every whitespace, `_` or `-`, drop the empty pieces
    and join what is left with single hyphens. */
module SlugWords {
  import opened Slug

  predicate NoSep(w: string) { forall i :: 0 <= i < |w| ==> !IsSep(w[i]) }

  predicate IsWordList(ws: seq<string>)
  {
    forall k :: 0 <= k < |ws| ==> ws[k] != [] && NoSep(ws[k])
  }

  /** The maximal non-empty runs of non-separator characters of `s`, in order. */
  function Words(s: string): (ws: seq<string>)
    ensures IsWordList(ws)
    ensures |s| > 0 && !IsSep(s[0]) ==> |ws| > 0 && ws[0][0] == s[0]
  {
    if s == [] then []
    else
      var rest := Words(s[1..]);
      if IsSep(s[0]) then rest
      else if |s| > 1 && !IsSep(s[1]) then [[s[0]] + rest[0]] + rest[1..]
      else [[s[0]]] + rest
  }

  /** The words joined with a single `-` between neighbours. */
  function Join(ws: seq<string>): (r: string)
    requires IsWordList(ws)
    ensures |ws| > 0 ==> |r| > 0 && r[0] == ws[0][0] && r[|r| - 1] != '-'
  {
    if ws == [] then []
    else if |ws| == 1 then ws[0]
    else ws[0] + "-" + Join(ws[1..])
  }

  /** `slugify` is the words of the stripped, lower-cased text joined by single
      hyphens: a hyphen stands exactly where a run of whitespace, `_` or `-`
      separated two words. */
  lemma SlugifyJoinsWords(text: string)
    ensures Slugify(text) == Join(Words(Strip(Lower(text))))
  {
    TrimCollapseJoinsWords(Strip(Lower(text)));
  }

  /** A hyphen if `s` ends with a separator, otherwise nothing. */
  function TrailingHyphen(s: string): string
  {
    if |s| > 0 && IsSep(s[|s| - 1]) then "-" else ""
  }

  lemma {:induction false} WordsDropSeps(s: string)
    ensures Words(DropSeps(s)) == Words(s)
  {
    if |s| > 0 && IsSep(s[0]) {
      WordsDropSeps(s[1..]);
    }
  }

  lemma {:induction false} TrailingDropSeps(s: string)
    requires DropSeps(s) == []
    ensures TrailingHyphen(s) == (if s == [] then "" else "-")
  {
    if s != [] {
      DropSepsSuffix(s);
      assert IsSep(s[|s| - 1]);
    }
  }

  lemma JoinCons(w: string, ws: seq<string>)
    requires IsWordList([w] + ws) && ws != []
    ensures IsWordList(ws) && Join([w] + ws) == w + "-" + Join(ws)
  {
    assert ([w] + ws)[1..] == ws;
  }

  lemma JoinExtend(c: char, ws: seq<string>)
    requires IsWordList(ws) && ws != [] && !IsSep(c)
    ensures IsWordList([[c] + ws[0]] + ws[1..])
    ensures Join([[c] + ws[0]] + ws[1..]) == [c] + Join(ws)
  {
    var w := [c] + ws[0];
    var vs := [w] + ws[1..];
    ExtendWordList(c, ws);
    if |ws| == 1 {
      assert vs == [w];
    } else {
      assert ws == [ws[0]] + ws[1..];
      JoinCons(ws[0], ws[1..]);
      JoinCons(w, ws[1..]);
      Regroup([c], ws[0], "-", Join(ws[1..]));
    }
  }

  lemma ExtendWordList(c: char, ws: seq<string>)
    requires IsWordList(ws) && ws != [] && !IsSep(c)
    ensures IsWordList([[c] + ws[0]] + ws[1..])
  {
    var w := [c] + ws[0];
    var vs := [w] + ws[1..];
    assert NoSep(w) by {
      assert forall i :: 1 <= i < |w| ==> w[i] == ws[0][i - 1];
    }
    forall k | 0 <= k < |vs| ensures vs[k] != [] && NoSep(vs[k]) {
      if k > 0 { assert vs[k] == ws[k]; }
    }
  }

  /** On a text that starts with a word, collapsing gives the joined words,
      followed by one hyphen when the text ends in separators. */
  lemma {:induction false} CollapseFromWord(s: string)
    requires s == [] || !IsSep(s[0])
    decreases |s|
    ensures Collapse(s) == Join(Words(s)) + TrailingHyphen(s)
  {
    if s != [] {
      var c, tail := s[0], s[1..];
      assert s == [c] + tail;
      CollapseCons(c, tail);
      if tail == [] {
        assert Words(s) == [[c]];
      } else if !IsSep(tail[0]) {
        CollapseFromWord(tail);
        WordsInWord(c, tail);
        JoinExtend(c, Words(tail));
        TrailingCons(c, tail);
        Regroup([c], Join(Words(tail)), [], TrailingHyphen(tail));
      } else {
        CollapseAfterWord(c, tail);
      }
    }
  }

  lemma WordsInWord(c: char, tail: string)
    requires !IsSep(c) && tail != [] && !IsSep(tail[0])
    ensures Words([c] + tail) == [[c] + Words(tail)[0]] + Words(tail)[1..]
  {
    var s := [c] + tail;
    assert s[0] == c && s[1..] == tail;
  }

  lemma {:induction false} CollapseAfterWord(c: char, tail: string)
    requires !IsSep(c) && tail != [] && IsSep(tail[0])
    decreases |tail|, 0
    ensures Collapse([c] + tail) == Join(Words([c] + tail)) + TrailingHyphen([c] + tail)
  {
    var d := DropSeps(tail);
    var ws := Words(d);
    CollapseCons(c, tail);
    assert Collapse(tail) == "-" + Collapse(d);
    WordsBeforeSep(c, tail);
    WordsDropSeps(tail);
    TrailingCons(c, tail);
    assert Words([c] + tail) == [[c]] + ws;
    if d == [] {
      TrailingDropSeps(tail);
      assert ws == [] && Collapse(d) == [];
      assert Join([[c]] + ws) == [c];
      assert "-" + Collapse(d) == "-";
    } else {
      CollapseFromWord(d);
      JoinCons([c], ws);
      TrailingDropSepsNonEmpty(tail);
      Regroup([c], "-", Join(ws), TrailingHyphen(tail));
    }
  }

  lemma Regroup(a: string, b: string, c: string, d: string)
    ensures a + (b + (c + d)) == ((a + b) + c) + d
    ensures ((a + b) + c) + d == a + ((b + c) + d)
  {
  }

  lemma WordsBeforeSep(c: char, tail: string)
    requires !IsSep(c) && tail != [] && IsSep(tail[0])
    ensures Words([c] + tail) == [[c]] + Words(tail)
  {
    var s := [c] + tail;
    assert s[0] == c && s[1..] == tail;
  }

  lemma TrailingCons(c: char, tail: string)
    requires tail != []
    ensures TrailingHyphen([c] + tail) == TrailingHyphen(tail)
  {
    var s := [c] + tail;
    assert s[|s| - 1] == tail[|tail| - 1];
  }

  lemma TrailingDropSepsNonEmpty(s: string)
    requires DropSeps(s) != []
    ensures TrailingHyphen(DropSeps(s)) == TrailingHyphen(s)
  {
    var d := DropSeps(s);
    DropSepsSuffix(s);
    assert d[|d| - 1] == s[|s| - 1];
  }

  lemma TrimCollapseJoinsWords(s: string)
    ensures Trim(Collapse(s)) == Join(Words(s))
  {
    var d := DropSeps(s);
    WordsDropSeps(s);
    CollapseFromWord(d);
    var core := Join(Words(d));
    if s != [] && IsSep(s[0]) {
      var x := Collapse(s);
      assert x == "-" + (core + TrailingHyphen(d));
      assert TrimStart(x) == TrimStart(core + TrailingHyphen(d)) by {
        assert x[0] == '-' && x[1..] == core + TrailingHyphen(d);
      }
      TrimBoth(core, TrailingHyphen(d));
    } else {
      TrimBoth(core, TrailingHyphen(s));
    }
  }

  lemma TrimBoth(core: string, tail: string)
    requires core == [] || (core[0] != '-' && core[|core| - 1] != '-')
    requires tail == "" || tail == "-"
    ensures TrimEnd(TrimStart(core + tail)) == core
  {
    if core == [] {
      assert core + tail == tail;
    } else {
      assert TrimStart(core + tail) == core + tail;
      if tail == "-" {
        assert (core + tail)[..|core + tail| - 1] == core;
      } else {
        assert core + tail == core;
      }
    }
  }
}
