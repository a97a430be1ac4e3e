/** The notebook download (`download_notebook`): the preamble and the
    notebook's lines are written out as one runnable script text. The
    preamble text and the line list come from the notebook document, whose
    internals are not part of this model, so both are parameters here. */
module Export {
  import opened PyStrings

  const Tab: char := '\t'

  /** A line that starts with a space: in the export no blank line
      follows it. */
  predicate Indented(t: string)
  {
    |t| > 0 && t[0] == ' '
  }

  /** What one notebook line becomes in the export: the line with a newline
      added and every tab deleted, then one more newline unless the result
      starts with a space. */
  function Chunk(item: string): (r: string)
    ensures Tab !in r
    ensures !Indented(Delete(item, Tab)) ==> r == Delete(item, Tab) + [Newline, Newline]
    ensures Indented(Delete(item, Tab)) ==> r == Delete(item, Tab) + [Newline]
  {
    DeleteAppend(item, [Newline], Tab);
    var line := Delete(item + [Newline], Tab);
    if line[0] != ' ' then line + [Newline] else line
  }

  /** Apply `f` to every element and concatenate the results, in order. */
  function ConcatMap(f: string -> string, xs: seq<string>): string
  {
    if |xs| == 0 then ""
    else ConcatMap(f, xs[..|xs| - 1]) + f(xs[|xs| - 1])
  }

  /** Mapping a concatenation is concatenating the mapped parts: nothing is
      dropped, merged or reordered. */
  lemma {:induction false} ConcatMapAppend(f: string -> string, a: seq<string>, b: seq<string>)
    ensures ConcatMap(f, a + b) == ConcatMap(f, a) + ConcatMap(f, b)
    decreases |b|
  {
    if |b| == 0 {
      assert a + b == a;
    } else {
      var c := a + b;
      var front := b[..|b| - 1];
      assert c[..|c| - 1] == a + front;
      ConcatMapAppend(f, a, front);
    }
  }

  function Terminate(p: string): string
  {
    p + [Newline]
  }

  /** The preamble loop: every piece gets its own terminating newline. */
  function Terminated(pieces: seq<string>): (r: string)
    ensures |pieces| == 0 ==> r == ""
    ensures |pieces| >= 1 ==> r == Join(pieces) + [Newline]
  {
    if |pieces| >= 1 then TerminatedIsJoin(pieces); ConcatMap(Terminate, pieces)
    else ConcatMap(Terminate, pieces)
  }

  /** The script text after the preamble: one chunk per line, in order. */
  function Body(lines: seq<string>): (r: string)
    ensures Tab !in r
    ensures |lines| == 0 ==> r == ""
  {
    BodyTabFree(lines);
    ConcatMap(Chunk, lines)
  }

  lemma {:induction false} JoinSnoc(ps: seq<string>, p: string)
    requires |ps| >= 1
    ensures Join(ps + [p]) == Join(ps) + [Newline] + p
  {
    if |ps| == 1 {
      JoinCons(ps[0], [p]);
      assert ps + [p] == [ps[0]] + [p];
    } else {
      assert (ps + [p])[1..] == ps[1..] + [p];
      JoinSnoc(ps[1..], p);
    }
  }

  /** Terminating every piece is joining them and terminating the result. */
  lemma {:induction false} TerminatedIsJoin(ps: seq<string>)
    requires |ps| >= 1
    ensures ConcatMap(Terminate, ps) == Join(ps) + [Newline]
  {
    var n := |ps|;
    if n > 1 {
      TerminatedIsJoin(ps[..n - 1]);
      JoinSnoc(ps[..n - 1], ps[n - 1]);
      assert ps[..n - 1] + [ps[n - 1]] == ps;
    } else {
      assert ps[..0] == [];
      assert ConcatMap(Terminate, ps) == ConcatMap(Terminate, ps[..0]) + Terminate(ps[0]);
    }
  }

  /** The preamble as written by the export: each of its `'\n'`-separated
      pieces followed by a newline. */
  function Preamble(preload: string): (r: string)
    ensures r == preload + [Newline]
  {
    var pieces := Split(preload);
    TerminatedIsJoin(pieces);
    JoinSplit(preload);
    Terminated(pieces)
  }

  /** The whole downloaded script. */
  function Export(preload: string, lines: seq<string>): (r: string)
    ensures r == preload + [Newline] + Body(lines)
    ensures Tab !in r[|preload| + 1..]
  {
    BodyTabFree(lines);
    assert (preload + [Newline] + Body(lines))[|preload| + 1..] == Body(lines);
    Preamble(preload) + Body(lines)
  }

  /** No tab survives anywhere in the exported lines. */
  lemma {:induction false} BodyTabFree(lines: seq<string>)
    ensures Tab !in ConcatMap(Chunk, lines)
  {
    if |lines| > 0 {
      BodyTabFree(lines[..|lines| - 1]);
    }
  }

  /** The body of a concatenation of line lists is the concatenation of the
      bodies. */
  lemma BodyAppend(a: seq<string>, b: seq<string>)
    ensures Body(a + b) == Body(a) + Body(b)
  {
    ConcatMapAppend(Chunk, a, b);
  }

  /** Line `i` of the notebook is exported as exactly its own chunk, placed
      after the chunks of all earlier lines and before those of all later
      ones. */
  lemma ChunkInPlace(lines: seq<string>, i: nat)
    requires i < |lines|
    ensures Body(lines) == Body(lines[..i]) + Chunk(lines[i]) + Body(lines[i + 1..])
  {
    assert lines == lines[..i] + [lines[i]] + lines[i + 1..];
    BodyAppend(lines[..i] + [lines[i]], lines[i + 1..]);
    BodyAppend(lines[..i], [lines[i]]);
    assert ([lines[i]])[..0] == [];
  }

  /** Apart from tabs and newlines, a chunk holds exactly the characters of
      its line, each as often as the line does. */
  lemma ChunkKeepsText(item: string, d: char)
    requires d != Tab && d != Newline
    ensures Count(Chunk(item), d) == Count(item, d)
  {
    var t := Delete(item, Tab);
    DeleteKeepsOthers(item, Tab, d);
    if Indented(t) {
      CountAppend(t, [Newline], d);
    } else {
      CountAppend(t, [Newline, Newline], d);
    }
  }

  /** The download handler as the source writes it: two loops appending to
      an output buffer. */
  method Download(preload: string, lines: seq<string>) returns (out: string)
    ensures out == preload + [Newline] + Body(lines)
    ensures out == Export(preload, lines)
  {
    var pieces := Split(preload);
    out := "";
    var k := 0;
    while k < |pieces|
      invariant 0 <= k <= |pieces|
      invariant out == ConcatMap(Terminate, pieces[..k])
    {
      assert pieces[..k + 1][..k] == pieces[..k];
      out := out + pieces[k] + [Newline];
      k := k + 1;
    }
    assert pieces[..k] == pieces;
    assert out == preload + [Newline] by {
      TerminatedIsJoin(pieces);
      JoinSplit(preload);
    }
    var j := 0;
    while j < |lines|
      invariant 0 <= j <= |lines|
      invariant out == preload + [Newline] + Body(lines[..j])
    {
      assert lines[..j + 1][..j] == lines[..j];
      out := out + Chunk(lines[j]);
      j := j + 1;
    }
    assert lines[..j] == lines;
  }
}
