/** The text renderer: the glyph string cut into lines of `width` glyphs
    and joined with line breaks, as the preview pane shows it. */
module Lines {
  import opened Base

  /** `[s[i:i+w] for i in range(0, len(s), w)]`: consecutive pieces of `w`
      characters, the last one possibly shorter. */
  function Chunks(s: string, w: nat): seq<string>
    requires w >= 1
    decreases |s|
  {
    if s == [] then []
    else if |s| <= w then [s]
    else [s[..w]] + Chunks(s[w..], w)
  }

  /** `"\n".join(lines)`. */
  function JoinLines(lines: seq<string>): string
  {
    if lines == [] then ""
    else if |lines| == 1 then lines[0]
    else JoinLines(lines[..|lines| - 1]) + "\n" + lines[|lines| - 1]
  }

  /** The preview text for a glyph string and a width. */
  function FormatText(s: string, w: nat): string
    requires w >= 1
  {
    JoinLines(Chunks(s, w))
  }

  /** The string with every line break taken out. */
  function RemoveNewlines(t: string): string
  {
    if t == [] then []
    else RemoveNewlines(t[..|t| - 1]) + (if t[|t| - 1] == '\n' then [] else [t[|t| - 1]])
  }

  lemma {:induction false} RemoveNewlinesAppend(a: string, b: string)
    ensures RemoveNewlines(a + b) == RemoveNewlines(a) + RemoveNewlines(b)
    decreases |b|
  {
    if b == [] {
      assert a + b == a;
    } else {
      var last := |b| - 1;
      assert (a + b)[..|a + b| - 1] == a + b[..last];
      RemoveNewlinesAppend(a, b[..last]);
    }
  }

  /** A string without line breaks is left as it is. */
  lemma {:induction false} RemoveNewlinesNone(t: string)
    requires '\n' !in t
    ensures RemoveNewlines(t) == t
    decreases |t|
  {
    if t != [] {
      RemoveNewlinesNone(t[..|t| - 1]);
    }
  }

  /** The pieces, put back together, are the whole string. */
  lemma {:induction false} ChunksConcat(s: string, w: nat)
    requires w >= 1
    ensures Concat(Chunks(s, w)) == s
    decreases |s|
  {
    if s == [] {
    } else if |s| <= w {
      assert Concat([s]) == Concat([]) + s;
    } else {
      ChunksConcat(s[w..], w);
      ConcatCons(s[..w], Chunks(s[w..], w));
    }
  }

  /** A string of `k` lines' worth of characters (the last line holding
      between 1 and `w`) gives `k` pieces; every piece but the last has
      exactly `w` characters, the last has the rest, and none is empty. */
  lemma {:induction false} ChunksShape(s: string, w: nat, k: nat)
    requires w >= 1 && k >= 1 && k * w - w < |s| <= k * w
    ensures |Chunks(s, w)| == k
    ensures forall j :: 0 <= j < k - 1 ==> |Chunks(s, w)[j]| == w
    ensures |Chunks(s, w)[k - 1]| == |s| - (k * w - w) > 0
    decreases k
  {
    if k > 1 {
      MulSucc(k - 1, w);
      assert |s| > w;
      ChunksShape(s[w..], w, k - 1);
      assert Chunks(s, w) == [s[..w]] + Chunks(s[w..], w);
    }
  }

  /** When the width divides the length, every line has exactly `w`
      characters. */
  lemma {:induction false} ChunksExact(s: string, w: nat, k: nat)
    requires w >= 1 && |s| == k * w
    ensures |Chunks(s, w)| == k
    ensures forall j :: 0 <= j < k ==> |Chunks(s, w)[j]| == w
  {
    if k >= 1 {
      ChunksShape(s, w, k);
    }
  }

  /** The lines never contain a line break of their own when the glyph
      string has none. */
  lemma {:induction false} ChunksNoNewline(s: string, w: nat)
    requires w >= 1 && '\n' !in s
    ensures forall j :: 0 <= j < |Chunks(s, w)| ==> '\n' !in Chunks(s, w)[j]
    decreases |s|
  {
    if |s| > w {
      ChunksNoNewline(s[w..], w);
      assert forall c :: c in s[..w] ==> c in s;
      assert Chunks(s, w) == [s[..w]] + Chunks(s[w..], w);
    }
  }

  /** Taking the separators out of joined lines leaves the lines' contents
      back to back. */
  lemma {:induction false} JoinLinesRemove(lines: seq<string>)
    requires forall j :: 0 <= j < |lines| ==> '\n' !in lines[j]
    ensures RemoveNewlines(JoinLines(lines)) == Concat(lines)
    decreases |lines|
  {
    if lines == [] {
    } else if |lines| == 1 {
      RemoveNewlinesNone(lines[0]);
      assert Concat(lines) == Concat([]) + lines[0];
    } else {
      var init := lines[..|lines| - 1];
      var last := lines[|lines| - 1];
      JoinLinesRemove(init);
      RemoveNewlinesAppend(JoinLines(init) + "\n", last);
      RemoveNewlinesAppend(JoinLines(init), "\n");
      assert RemoveNewlines("\n") == [] by {
        assert "\n"[..0] == [];
      }
      RemoveNewlinesNone(last);
    }
  }

  /** Removing the line breaks from the preview gives back the glyph string
      exactly. */
  lemma FormatTextRoundTrip(s: string, w: nat)
    requires w >= 1 && '\n' !in s
    ensures RemoveNewlines(FormatText(s, w)) == s
  {
    ChunksNoNewline(s, w);
    JoinLinesRemove(Chunks(s, w));
    ChunksConcat(s, w);
  }
}
