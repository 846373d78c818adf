/** From a diff script to a list of chunks.  The script itself comes from a diff library
    and is only known by its contract: it partitions the old and the new text. */
module EditScripts {
  import opened Chunks

  datatype Diff<T> = Insert(text: seq<T>) | Delete(text: seq<T>) | Equal(text: seq<T>)

  function OldText<T>(script: seq<Diff<T>>): seq<T> {
    if script == [] then [] else (if script[0].Insert? then [] else script[0].text) + OldText(script[1..])
  }

  function NewText<T>(script: seq<Diff<T>>): seq<T> {
    if script == [] then [] else (if script[0].Delete? then [] else script[0].text) + NewText(script[1..])
  }

  ghost predicate Partitions<T>(script: seq<Diff<T>>, oldText: seq<T>, newText: seq<T>) {
    OldText(script) == oldText && NewText(script) == newText
  }

  /** The chunks of a script whose first piece starts at position `idx` of the new text. */
  function ScriptChunks<T>(script: seq<Diff<T>>, idx: nat): seq<Chunk<T>> {
    if script == [] then []
    else
      var l := |script[0].text|;
      match script[0]
      case Insert(t) => [Chunk(ADD, idx, t, l)] + ScriptChunks(script[1..], idx + l)
      case Delete(t) => [Chunk(REMOVE, idx, t, l)] + ScriptChunks(script[1..], idx)
      case Equal(_) => ScriptChunks(script[1..], idx + l)
  }

  method Compute<T>(script: seq<Diff<T>>) returns (chunks: seq<Chunk<T>>)
    ensures chunks == ScriptChunks(script, 0)
  {
    chunks := [];
    var idx: nat := 0;
    for i := 0 to |script|
      invariant chunks + ScriptChunks(script[i..], idx) == ScriptChunks(script, 0)
    {
      var l := |script[i].text|;
      FirstPiece(script[i..], idx);
      assert script[i..][1..] == script[i + 1..];
      match script[i] {
        case Insert(t) =>
          AppendOne(chunks, Chunk(ADD, idx, t, l), ScriptChunks(script[i + 1..], idx + l));
          chunks := chunks + [Chunk(ADD, idx, t, l)];
          idx := idx + l;
        case Delete(t) =>
          AppendOne(chunks, Chunk(REMOVE, idx, t, l), ScriptChunks(script[i + 1..], idx));
          chunks := chunks + [Chunk(REMOVE, idx, t, l)];
        case Equal(_) =>
          idx := idx + l;
      }
    }
  }

  lemma {:induction false} AppendOne<T>(a: seq<T>, x: T, b: seq<T>)
    ensures a + ([x] + b) == (a + [x]) + b
  {
  }

  lemma {:induction false} FirstPiece<T>(script: seq<Diff<T>>, idx: nat)
    requires script != []
    ensures var l, rest := |script[0].text|, script[1..];
            match script[0]
            case Insert(t) => ScriptChunks(script, idx) == [Chunk(ADD, idx, t, l)] + ScriptChunks(rest, idx + l)
            case Delete(t) => ScriptChunks(script, idx) == [Chunk(REMOVE, idx, t, l)] + ScriptChunks(rest, idx)
            case Equal(_) => ScriptChunks(script, idx) == ScriptChunks(rest, idx + l)
  {
  }

  /** Each chunk fits the text it meets, and a removal names exactly the runes it removes. */
  ghost predicate FitsStepByStep<T>(text: seq<T>, cs: seq<Chunk<T>>)
    decreases |cs|
  {
    cs == [] ||
    (&& InBounds(|text|, cs[0])
     && (cs[0].op == REMOVE ==> text[cs[0].pos..cs[0].pos + cs[0].len] == cs[0].text)
     && FitsStepByStep(Apply(text, cs[0]), cs[1..]))
  }

  ghost predicate Rewrites<T>(text: seq<T>, cs: seq<Chunk<T>>, result: seq<T>) {
    ValidAll(cs) && ApplyAll(text, cs) == result && FitsStepByStep(text, cs)
  }

  lemma {:induction false} RewritesCons<T>(text: seq<T>, c: Chunk<T>, cs: seq<Chunk<T>>, result: seq<T>)
    requires InBounds(|text|, c) && (c.op == REMOVE ==> text[c.pos..c.pos + c.len] == c.text)
    requires Rewrites(Apply(text, c), cs, result)
    ensures Rewrites(text, [c] + cs, result)
  {
    assert ([c] + cs)[1..] == cs;
  }

  lemma {:induction false} RewritesNil<T>(text: seq<T>, script: seq<Diff<T>>, idx: nat)
    requires script == []
    ensures Rewrites(text + OldText(script), ScriptChunks(script, idx), text + NewText(script))
  {
  }

  lemma {:induction false} InsertAfter<T>(done: seq<T>, t: seq<T>, rest: seq<T>)
    ensures Apply(done + rest, Chunk(ADD, |done|, t, |t|)) == done + t + rest
  {
    ApplyShape(done + rest, Chunk(ADD, |done|, t, |t|));
  }

  lemma {:induction false} DeleteAfter<T>(done: seq<T>, t: seq<T>, rest: seq<T>)
    ensures Apply(done + t + rest, Chunk(REMOVE, |done|, t, |t|)) == done + rest
    ensures (done + t + rest)[|done|..|done| + |t|] == t
  {
    ApplyShape(done + t + rest, Chunk(REMOVE, |done|, t, |t|));
  }

  lemma {:induction false} OnePieceLess<T>(done: seq<T>, script: seq<Diff<T>>)
    requires script != []
    ensures var t, rest := script[0].text, script[1..];
            match script[0]
            case Insert(_) => done + OldText(script) == done + OldText(rest) && done + NewText(script) == done + t + NewText(rest)
            case Delete(_) => done + OldText(script) == done + t + OldText(rest) && done + NewText(script) == done + NewText(rest)
            case Equal(_) => done + OldText(script) == done + t + OldText(rest) && done + NewText(script) == done + t + NewText(rest)
  {
    var t, rest := script[0].text, script[1..];
    var o, n := if script[0].Insert? then [] else t, if script[0].Delete? then [] else t;
    Regroup(done, o, OldText(rest), OldText(script));
    Regroup(done, n, NewText(rest), NewText(script));
    assert done + [] == done;
  }

  lemma {:induction false} Regroup<T>(a: seq<T>, b: seq<T>, c: seq<T>, bc: seq<T>)
    requires bc == b + c
    ensures a + bc == (a + b) + c
  {
  }

  lemma {:induction false} ScriptRewrites<T>(done: seq<T>, script: seq<Diff<T>>)
    ensures Rewrites(done + OldText(script), ScriptChunks(script, |done|), done + NewText(script))
    decreases |script|
  {
    hide Rewrites, Apply, ScriptChunks, OldText, NewText;
    if script == [] {
      RewritesNil(done, script, |done|);
    } else {
      var t, rest := script[0].text, script[1..];
      OnePieceLess(done, script);
      FirstPiece(script, |done|);
      match script[0] {
        case Equal(_) =>
          ScriptRewrites(done + t, rest);
        case Insert(_) =>
          ScriptRewrites(done + t, rest);
          InsertAfter(done, t, OldText(rest));
          RewritesCons(done + OldText(rest), Chunk(ADD, |done|, t, |t|), ScriptChunks(rest, |done| + |t|), done + NewText(script));
        case Delete(_) =>
          ScriptRewrites(done, rest);
          DeleteAfter(done, t, OldText(rest));
          RewritesCons(done + t + OldText(rest), Chunk(REMOVE, |done|, t, |t|), ScriptChunks(rest, |done|), done + NewText(script));
      }
    }
  }

  /** Whatever script the diff library chooses, the chunks rewrite the old text into the
      new one, are valid, and never clamp on the way. */
  lemma {:induction false} RoundTrip<T>(script: seq<Diff<T>>, oldText: seq<T>, newText: seq<T>)
    requires Partitions(script, oldText, newText)
    ensures ValidAll(ScriptChunks(script, 0))
    ensures ApplyAll(oldText, ScriptChunks(script, 0)) == newText
    ensures FitsStepByStep(oldText, ScriptChunks(script, 0))
  {
    hide ScriptChunks, OldText, NewText, Apply, ApplyAll, FitsStepByStep;
    ScriptRewrites([], script);
    assert [] + oldText == oldText;
    assert [] + newText == newText;
  }
}
