/** The worker that reads a file in blocks and lists the digest of every line. */
module ContentReader {
  import opened Bytes
  import opened ContentLines

  datatype Code = Success | Over | Failed

  /** Whether the file is open, how far it has been read, and what has been found in it. */
  datatype Progress = Progress(open: bool, pos: nat, tally: Tally)

  function Min(a: nat, b: nat): nat { if a < b then a else b }

  /** What one read of at most `block` bytes comes to: a short read is the end of the file. */
  function ReadOnce(r: Progress, file: Text, block: nat): (Progress, Code)
    requires r.pos <= |file|
  {
    var n := Min(block, |file| - r.pos);
    var y := ByLines(r.tally, file[r.pos..r.pos + n]);
    if n < block then (Progress(false, r.pos + n, Finish(y)), Over)
    else (Progress(true, r.pos + n, y), Success)
  }

  function Digests<D>(sha1: Text -> D, lines: seq<Text>): seq<D> {
    seq(|lines|, i requires 0 <= i < |lines| => sha1(lines[i]))
  }

  class Content<D> {
    const sha1: Text -> D
    const file: Text
    var pos: nat
    var open: bool
    const readBuf: array<Byte>
    var preLine: Text
    var linesSha1: seq<D>
    var emptyLines: nat
    /** The lines behind the digests. */
    ghost var kept: seq<Text>

    ghost predicate Valid()
      reads this
    {
      && readBuf.Length > 0 && pos <= |file|
      && linesSha1 == Digests(sha1, kept)
    }

    ghost function Found(): Tally
      reads this
    {
      Tally(preLine, kept, emptyLines)
    }

    constructor (sha1: Text -> D, file: Text, blockSize: nat, preLine: Text)
      requires blockSize > 0
      ensures Valid() && this.sha1 == sha1 && this.file == file && readBuf.Length == blockSize && fresh(readBuf)
      ensures open && pos == 0 && Found() == Tally(preLine, [], 0)
    {
      this.sha1, this.file, this.preLine := sha1, file, preLine;
      readBuf := new Byte[blockSize];
      pos, open, linesSha1, emptyLines, kept := 0, true, [], 0, [];
    }

    static method CheckIsEmptyLine(s: Text) returns (empty: bool)
      ensures empty == IsBlankLine(s)
    {
      for i := 0 to |s|
        invariant forall k :: 0 <= k < i ==> IsSpace(s[k])
      {
        if !IsSpace(s[i]) { return false; }
      }
      return true;
    }

    method AppendToPreLine(s: Text)
      requires Valid()
      modifies this`preLine
      ensures Valid() && preLine == old(preLine) + s
    {
      if |s| == 0 {
        return;
      }
      preLine := preLine + s;
    }

    method ListDigest(s: Text)
      requires Valid()
      modifies this`linesSha1, this`kept
      ensures Valid() && kept == old(kept) + [s]
    {
      linesSha1 := linesSha1 + [sha1(s)];
      kept := kept + [s];
    }

    method ComputeSha1OfSingleLine(s: Text)
      requires Valid()
      modifies this`preLine, this`linesSha1, this`emptyLines, this`kept
      ensures Valid() && Found() == EndLine(old(Found()), s)
    {
      var toCompute := s;
      assert preLine == [] ==> preLine + s == s;
      if preLine != [] {
        AppendToPreLine(s);
        toCompute := preLine;
      }
      var empty := CheckIsEmptyLine(toCompute);
      if empty {
        preLine := [];
        emptyLines := emptyLines + 1;
        return;
      }
      ListDigest(toCompute);
      preLine := [];
    }

    /** Split the first `bufLen` bytes of the buffer into lines; what follows the last of them is carried over. */
    method ComputeSha1ByLines(bufLen: nat)
      requires Valid() && 0 < bufLen <= readBuf.Length
      modifies this`preLine, this`linesSha1, this`emptyLines, this`kept
      ensures Valid() && Found() == ByLines(old(Found()), readBuf[..bufLen])
    {
      hide ByLines;
      hide LineLength;
      hide EndLine;
      hide IsBlankLine;
      var begin := 0;
      var block := readBuf[..bufLen];
      assert block[begin..] == block;
      for i := 0 to bufLen
        invariant Valid() && begin <= i
        invariant forall k :: begin <= k < i ==> block[k] != LF
        invariant ByLines(Found(), block[begin..]) == ByLines(old(Found()), block)
      {
        assert readBuf[i] == block[i];
        if readBuf[i] == LF {
          LineEnds(Found(), block, begin, i);
          ComputeSha1OfSingleLine(block[begin..i]);
          begin := i + 1;
        }
      }
      NoLineEnds(Found(), block, begin);
      if begin < bufLen {
        AppendToPreLine(block[begin..]);
      }
    }

    /** The carry at the end of the file is a last line. */
    method FinishLastLine()
      requires Valid()
      modifies this`preLine, this`linesSha1, this`emptyLines, this`kept
      ensures Valid() && Found() == Finish(old(Found()))
    {
      if preLine != [] {
        var empty := CheckIsEmptyLine(preLine);
        if empty {
          emptyLines := emptyLines + 1;
        } else {
          ListDigest(preLine);
          preLine := [];
        }
      }
    }

    /** Fill the buffer from the file. */
    method Read() returns (n: nat)
      requires Valid()
      modifies readBuf, this`pos
      ensures Valid() && n == Min(readBuf.Length, |file| - old(pos)) && pos == old(pos) + n
      ensures readBuf[..n] == file[old(pos)..pos]
    {
      n := Min(readBuf.Length, |file| - pos);
      forall i | 0 <= i < n { readBuf[i] := file[pos + i]; }
      pos := pos + n;
    }

    method FileContentRead() returns (code: Code)
      requires Valid() && open
      modifies this, readBuf
      ensures Valid()
      ensures (Progress(open, pos, Found()), code)
              == ReadOnce(Progress(true, old(pos), old(Found())), file, readBuf.Length)
    {
      hide ByLines;
      hide Finish;
      hide Digests;
      var n := Read();
      if n == 0 {
        NothingRead(Found());
        FinishLastLine();
        open := false;
        return Over;
      }
      ComputeSha1ByLines(n);
      if n < readBuf.Length {
        FinishLastLine();
        open := false;
        return Over;
      }
      return Success;
    }

    /** Read the file to its end. Whatever the block size, the digests and the number of blank lines are
        those of the lines of the carry and the whole file. */
    method ReadAll()
      requires Valid() && open && pos == 0 && kept == [] && emptyLines == 0 && LF !in preLine
      modifies this, readBuf
      ensures Valid() && !open && pos == |file|
      ensures var lines := Kept(FileLines(old(preLine) + file));
              |linesSha1| == |lines| && forall i :: 0 <= i < |lines| ==> linesSha1[i] == sha1(lines[i])
      ensures emptyLines == BlankCount(FileLines(old(preLine) + file))
    {
      ghost var start := Found();
      assert file[0..] == file;
      var code := Success;
      while code == Success
        invariant Valid() && code != Failed
        invariant code == Success ==> open && ByLines(Found(), file[pos..]) == ByLines(start, file)
        invariant code == Over ==> !open && pos == |file| && Found() == Finish(ByLines(start, file))
        decreases code == Success, |file| - pos
      {
        ReadProgress(Progress(true, pos, Found()), file, readBuf.Length);
        code := FileContentRead();
      }
      TallyIsFileLines(old(preLine), file);
    }
  }

  /** A read keeps the tally of what is left, and comes to an end with all of the file. */
  lemma {:induction false} ReadProgress(r: Progress, file: Text, block: nat)
    requires r.pos <= |file| && block > 0
    ensures var (z, code) := ReadOnce(r, file, block);
            && r.pos <= z.pos <= |file| && code != Failed && z.open == (code == Success)
            && (code == Success ==> r.pos < z.pos && ByLines(z.tally, file[z.pos..]) == ByLines(r.tally, file[r.pos..]))
            && (code == Over ==> z.pos == |file| && z.tally == Finish(ByLines(r.tally, file[r.pos..])))
  {
    hide *;
    var n := Min(block, |file| - r.pos);
    ReadOnceIs(r, file, block, n);
    FileCut(file, r.pos, n);
    BlocksJoin(r.tally, file[r.pos..r.pos + n], file[r.pos + n..]);
  }

  lemma {:induction false} ReadOnceIs(r: Progress, file: Text, block: nat, n: nat)
    requires r.pos <= |file| && n == Min(block, |file| - r.pos)
    ensures var y := ByLines(r.tally, file[r.pos..r.pos + n]);
            && n <= block && r.pos + n <= |file| && (n < block ==> r.pos + n == |file|)
            && ReadOnce(r, file, block) == if n < block then (Progress(false, r.pos + n, Finish(y)), Over)
                                           else (Progress(true, r.pos + n, y), Success)
  {
    hide ByLines;
    hide Finish;
  }

  lemma {:induction false} FileCut(file: Text, pos: nat, n: nat)
    requires pos + n <= |file|
    ensures file[pos..pos + n] + file[pos + n..] == file[pos..]
    ensures pos + n == |file| ==> file[pos..pos + n] == file[pos..]
  {
  }

  lemma {:induction false} NothingRead(y: Tally)
    ensures ByLines(y, []) == y
  {
    assert y.carry + [] == y.carry;
  }

  lemma {:induction false} LineEnds(y: Tally, block: Text, begin: nat, i: nat)
    requires begin <= i < |block| && block[i] == LF && forall k :: begin <= k < i ==> block[k] != LF
    ensures ByLines(y, block[begin..]) == ByLines(EndLine(y, block[begin..i]), block[i + 1..])
  {
    hide ByLines;
    hide EndLine;
    var t := block[begin..];
    assert t[i - begin] == LF;
    ByLinesStep(y, t, i - begin);
    assert t[..i - begin] == block[begin..i] && t[i - begin + 1..] == block[i + 1..];
  }

  lemma {:induction false} NoLineEnds(y: Tally, block: Text, begin: nat)
    requires begin <= |block| && forall k :: begin <= k < |block| ==> block[k] != LF
    ensures ByLines(y, block[begin..]) == y.(carry := y.carry + block[begin..])
  {
    hide ByLines;
    ByLinesStep(y, block[begin..], |block| - begin);
  }
}
