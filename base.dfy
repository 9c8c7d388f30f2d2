/** Values shared by every part of the model: the outcome of an operation
    that can raise in Python, Python's string indexing, and string
    concatenation of a list of pieces. */
module Base {

  datatype Option<+T> = None | Some(value: T)

  /** The two Python exceptions the conversion core can raise. */
  datatype Error =
    | IndexError  // a glyph looked up in an empty ramp
    | ValueError  // a colour string that `int(_, 16)` refuses

  /** A value, or the exception the Python code would raise instead. */
  datatype Result<+T> = Success(value: T) | Failure(error: Error)

  /** Python's `s[k]` on a string: negative indices count from the end,
      anything else out of range raises IndexError (None here). */
  function CharAt(s: string, k: int): (r: Option<char>)
    ensures r.Some? <==> -|s| <= k < |s|
    ensures 0 <= k < |s| ==> r == Some(s[k])
  {
    if 0 <= k < |s| then Some(s[k])
    else if -|s| <= k < 0 then Some(s[|s| + k])
    else None
  }

  /** One more row of `w`: `(k + 1) * w` is `k * w + w`. */
  lemma MulSucc(k: nat, w: nat)
    ensures (k + 1) * w == k * w + w
  {
  }

  /** `"".join(pieces)`. */
  function Concat(pieces: seq<string>): string
  {
    if pieces == [] then "" else Concat(pieces[..|pieces| - 1]) + pieces[|pieces| - 1]
  }

  lemma {:induction false} ConcatAppend(a: seq<string>, b: seq<string>)
    ensures Concat(a + b) == Concat(a) + Concat(b)
    decreases |b|
  {
    if b == [] {
      assert a + b == a;
    } else {
      var init := b[..|b| - 1];
      var last := b[|b| - 1];
      assert (a + b)[..|a + b| - 1] == a + init;
      assert (a + b)[|a + b| - 1] == last;
      ConcatAppend(a, init);
      assert Concat(a + b) == Concat(a) + Concat(init) + last;
    }
  }

  lemma {:induction false} ConcatCons(x: string, rest: seq<string>)
    ensures Concat([x] + rest) == x + Concat(rest)
  {
    ConcatAppend([x], rest);
    assert [x][..0] == [];
  }
}
