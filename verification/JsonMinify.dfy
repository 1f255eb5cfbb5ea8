/** Minifying a text in place: whitespace and comments go, strings stay. */
module JsonMinify {
  import opened Bytes
  import opened MinifiedText

  /** The text `c` is read up to `p` and rewritten up to `into`, as `done`; the rest is untouched. */
  ghost predicate Rewritten(json: array<Byte>, c: Text, p: nat, into: nat, done: Text)
    reads json
  {
    && Terminated(c) && |c| == json.Length && into <= p < |c|
    && json[..into] == done
    && forall k :: p <= k < |c| ==> json[k] == c[k]
  }

  method SkipOnelineComment(json: array<Byte>, p: nat, ghost c: Text) returns (q: nat)
    requires Terminated(c) && |c| == json.Length && p + 2 < |c| && forall k :: p <= k < |c| ==> json[k] == c[k]
    ensures q == LineEnd(c, p + 2)
  {
    q := p + 2;
    while json[q] != 0
      invariant p + 2 <= q < json.Length && LineEnd(c, q) == LineEnd(c, p + 2)
      decreases json.Length - q
    {
      if json[q] == NEWLINE { return q + 1; }
      q := q + 1;
    }
  }

  method SkipMultilineComment(json: array<Byte>, p: nat, ghost c: Text) returns (q: nat)
    requires Terminated(c) && |c| == json.Length && p + 2 < |c| && forall k :: p <= k < |c| ==> json[k] == c[k]
    ensures q == CommentEnd(c, p + 2)
  {
    q := p + 2;
    while json[q] != 0
      invariant p + 2 <= q < json.Length && CommentEnd(c, q) == CommentEnd(c, p + 2)
      decreases json.Length - q
    {
      if json[q] == STAR && json[q + 1] == SLASH { return q + 2; }
      q := q + 1;
    }
  }

  /** Write one byte; the read position moves on with it, so it is never overtaken. */
  method WriteByte(json: array<Byte>, p: nat, into: nat, b: Byte, ghost c: Text, ghost done: Text)
    requires Rewritten(json, c, p, into, done) && p + 1 < |c|
    modifies json
    ensures Rewritten(json, c, p + 1, into + 1, done + [b])
  {
    json[into] := b;
    assert json[..into + 1] == done + [b];
  }

  /** Copy a string in place, from its opening quote at `p` to `into`. */
  method MinifyString(json: array<Byte>, p: nat, into: nat, ghost c: Text, ghost done: Text)
      returns (q: nat, into': nat, ghost done': Text)
    requires Rewritten(json, c, p, into, done) && c[p] == QUOTE
    modifies json
    ensures Rewritten(json, c, q, into', done') && p < q
    ensures done' + Minified(c, q) == done + Minified(c, p)
  {
    hide Minified;
    hide InString;
    WriteByte(json, p, into, json[p], c, done);
    q, into', done' := p + 1, into + 1, done + [QUOTE];
    StringOpens(c, p);
    Regrouped(done, [QUOTE], InString(c, p + 1));
    while json[q] != 0
      invariant Rewritten(json, c, q, into', done') && p < q
      invariant done' + InString(c, q) == done + Minified(c, p)
      decreases |c| - q
    {
      var b := json[q];
      StringStep(c, q);
      WriteByte(json, q, into', b, c, done');
      if b == QUOTE {
        Regrouped(done', [QUOTE], Minified(c, q + 1));
        return q + 1, into' + 1, done' + [QUOTE];
      }
      if b == BACKSLASH && json[q + 1] == QUOTE {
        WriteByte(json, q + 1, into' + 1, QUOTE, c, done' + [b]);
        Regrouped(done', [BACKSLASH, QUOTE], InString(c, q + 2));
        Regrouped(done', [BACKSLASH], [QUOTE]);
        q, into', done' := q + 2, into' + 2, done' + [BACKSLASH, QUOTE];
      } else {
        Regrouped(done', [b], InString(c, q + 1));
        q, into', done' := q + 1, into' + 1, done' + [b];
      }
    }
    StringRunsOut(c, q);
    hide *;
  }

  /** Minify in place: the write position never passes the read position. */
  method Minify(json: array<Byte>) returns (into: nat)
    requires Terminated(json[..])
    modifies json
    ensures into < json.Length && json[..into] == Minified(old(json[..]), 0) && json[into] == 0
    ensures IsMinified(old(json[..]), json[..into])
  {
    ghost var c, done := json[..], [];
    var p := 0;
    into := 0;
    assert done + Minified(c, 0) == Minified(c, 0);
    while json[p] != 0
      invariant Rewritten(json, c, p, into, done)
      invariant done + Minified(c, p) == Minified(c, 0)
      decreases |c| - p
    {
      var b := json[p];
      if IsBlank(b) {
        p := p + 1;
      } else if b == SLASH {
        if json[p + 1] == SLASH {
          p := SkipOnelineComment(json, p, c);
        } else if json[p + 1] == STAR {
          p := SkipMultilineComment(json, p, c);
        } else {
          p := p + 1;
        }
      } else if b == QUOTE {
        p, into, done := MinifyString(json, p, into, c, done);
      } else {
        Regrouped(done, [b], Minified(c, p + 1));
        WriteByte(json, p, into, b, c, done);
        p, into, done := p + 1, into + 1, done + [b];
      }
    }
    assert done + [] == done;
    json[into] := 0;
    MinifiedIsExact(c, json[..into]);
  }
}
