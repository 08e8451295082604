/**
  The keyword list the driver iterates. The scraper reads it from the `KEY`
  environment variable, which is a single string.
 */
module Keywords {

  /** `for (const keyword of SEARCH_KEYWORDS)` with SEARCH_KEYWORDS the string
      in `KEY`: iterating a string yields its characters, so every character is
      searched as a keyword of its own. */
  function KeywordsAsWritten(key: string): (keywords: seq<string>)
    ensures |keywords| == |key|
    ensures forall i :: 0 <= i < |key| ==> keywords[i] == [key[i]]
  {
    if key == [] then [] else [[key[0]]] + KeywordsAsWritten(key[1..])
  }

  /** A two-letter keyword is never searched as such: its letters are. */
  lemma KeywordsAsWrittenSplitsWords(a: char, b: char)
    ensures KeywordsAsWritten([a, b]) == [[a], [b]]
    ensures [a, b] !in KeywordsAsWritten([a, b])
  {
    var ks := KeywordsAsWritten([a, b]);
    assert ks[0] == [a] && ks[1] == [b];
    assert |ks| == 2;
  }

  /** The separator between keywords in `KEY`. */
  const Separator: char := ','

  /** The keywords of `KEY`: the pieces between separators, each searched whole. */
  function SplitKeywords(key: string): (keywords: seq<string>)
    ensures |keywords| >= 1
    ensures forall i :: 0 <= i < |keywords| ==> Separator !in keywords[i]
  {
    if key == [] then [[]]
    else
      var rest := SplitKeywords(key[1..]);
      if key[0] == Separator then [[]] + rest
      else [[key[0]] + rest[0]] + rest[1..]
  }

  /** The pieces written back with separators between them. */
  function Join(keywords: seq<string>): string
    requires |keywords| >= 1
  {
    if |keywords| == 1 then keywords[0]
    else keywords[0] + [Separator] + Join(keywords[1..])
  }

  /** Splitting loses nothing: joining the keywords gives `KEY` back. */
  lemma {:induction false} JoinSplitKeywords(key: string)
    ensures Join(SplitKeywords(key)) == key
  {
    if key != [] {
      JoinSplitKeywords(key[1..]);
      var rest := SplitKeywords(key[1..]);
      if key[0] == Separator {
        assert [[]] + rest != [] && ([[]] + rest)[1..] == rest;
      } else {
        var ks := [[key[0]] + rest[0]] + rest[1..];
        if |rest| > 1 {
          assert ks[1..] == rest[1..];
        }
      }
    }
  }

  /** Joining keywords that hold no separator and splitting again gives the
      same keywords. */
  lemma {:induction false} SplitJoinKeywords(keywords: seq<string>)
    requires |keywords| >= 1
    requires forall i :: 0 <= i < |keywords| ==> Separator !in keywords[i]
    ensures SplitKeywords(Join(keywords)) == keywords
    decreases |Join(keywords)|
  {
    var w := keywords[0];
    if |keywords| == 1 {
      SplitWord(w, []);
      var empty: string := [];
      assert w + empty == w;
      assert SplitKeywords(empty) == [empty];
    } else {
      SplitJoinKeywords(keywords[1..]);
      SplitWord(w, [Separator] + Join(keywords[1..]));
      assert Join(keywords) == w + ([Separator] + Join(keywords[1..]));
      var tail := [Separator] + Join(keywords[1..]);
      assert SplitKeywords(tail) == [[]] + keywords[1..] by {
        assert tail[1..] == Join(keywords[1..]);
      }
      var ks := SplitKeywords(tail);
      assert ks[0] == [] && ks[1..] == keywords[1..];
      assert w + ks[0] == w;
      assert keywords == [w] + keywords[1..];
    }
  }

  /** A separator-free word in front of `rest` extends the first keyword of `rest`. */
  lemma {:induction false} SplitWord(w: string, rest: string)
    requires Separator !in w
    ensures var ks := SplitKeywords(rest);
            SplitKeywords(w + rest) == [w + ks[0]] + ks[1..]
    decreases |w|
  {
    if w != [] {
      SplitWord(w[1..], rest);
      assert (w + rest)[1..] == w[1..] + rest;
      assert (w + rest)[0] == w[0];
      var ks := SplitKeywords(w[1..] + rest);
      assert [w[0]] + (w[1..] + SplitKeywords(rest)[0]) == w + SplitKeywords(rest)[0];
    } else {
      var ks := SplitKeywords(rest);
      assert w + rest == rest;
      assert w + ks[0] == ks[0];
      assert ks == [ks[0]] + ks[1..];
    }
  }

  /** A `KEY` without separators is searched as one keyword. */
  lemma SingleKeyword(key: string)
    requires Separator !in key
    ensures SplitKeywords(key) == [key]
  {
    SplitJoinKeywords([key]);
  }
}
