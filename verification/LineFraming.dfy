/**
 The line splitter of the socket server: reads arrive in chunks cut anywhere, lines are
 delivered as soon as their newline is in, and what follows the last newline stays buffered.
 */
module LineFraming {
  import opened Wrappers

  newtype byte = b: int | 0 <= b < 256

  const NEWLINE: byte := 10

  // ---------------------------------------------------------------------------------------
  // Splitting a whole stream at once

  /** `iter().position(|&b| b == '\n')` */
  function Position(s: seq<byte>): (p: Option<nat>)
    ensures p.None? <==> NEWLINE !in s
    ensures p.Some? ==> p.value < |s| && s[p.value] == NEWLINE && NEWLINE !in s[..p.value]
  {
    if s == [] then None
    else if s[0] == NEWLINE then Some(0)
    else
      var p := Position(s[1..]);
      if p.None? then None else
      assert s[..p.value + 1] == [s[0]] + s[1..][..p.value];
      Some(p.value + 1)
  }

  /** The complete lines of a stream, without their newlines. */
  function Lines(s: seq<byte>): seq<seq<byte>> {
    var p := Position(s);
    if p.None? then [] else [s[..p.value]] + Lines(s[p.value + 1..])
  }

  /** What follows the last newline. */
  function Rest(s: seq<byte>): (rest: seq<byte>)
    ensures NEWLINE !in rest && |rest| <= |s|
  {
    var p := Position(s);
    if p.None? then s else Rest(s[p.value + 1..])
  }

  function Join(lines: seq<seq<byte>>): seq<byte> {
    if lines == [] then [] else lines[0] + [NEWLINE] + Join(lines[1..])
  }

  ghost predicate NewlineFree(lines: seq<seq<byte>>) {
    forall i | 0 <= i < |lines| :: NEWLINE !in lines[i]
  }

  lemma {:induction false} PositionAfter(before: seq<byte>, s: seq<byte>)
    requires NEWLINE !in before
    ensures Position(before + s) == if Position(s).None? then None else Some(|before| + Position(s).value)
  {
    if before == [] {
      assert before + s == s;
    } else {
      assert (before + s)[1..] == before[1..] + s;
      PositionAfter(before[1..], s);
    }
  }

  lemma SplitNone(s: seq<byte>)
    requires NEWLINE !in s
    ensures Lines(s) == [] && Rest(s) == s
  {
  }

  lemma SplitFirst(line: seq<byte>, after: seq<byte>)
    requires NEWLINE !in line
    ensures Lines(line + [NEWLINE] + after) == [line] + Lines(after)
    ensures Rest(line + [NEWLINE] + after) == Rest(after)
  {
    var tail := [NEWLINE] + after;
    var s := line + tail;
    assert line + [NEWLINE] + after == s;
    PositionAfter(line, tail);
    assert s[..|line|] == line && s[|line| + 1..] == after;
  }

  lemma FirstLine(s: seq<byte>) returns (line: seq<byte>, after: seq<byte>)
    requires NEWLINE in s
    ensures s == line + [NEWLINE] + after && NEWLINE !in line && |after| < |s|
  {
    var p := Position(s).value;
    line, after := s[..p], s[p + 1..];
  }

  /**
   Lines and rest are the one and only way to cut a stream into newline-free lines, each ended
   by a newline, and a newline-free rest.
   */
  lemma SplitIsUnique(s: seq<byte>, lines: seq<seq<byte>>, rest: seq<byte>)
    ensures Join(lines) + rest == s && NewlineFree(lines) && NEWLINE !in rest <==> lines == Lines(s) && rest == Rest(s)
  {
    if Join(lines) + rest == s && NewlineFree(lines) && NEWLINE !in rest {
      SplitOfJoin(lines, rest);
    }
    JoinOfSplit(s);
  }

  lemma {:induction false} SplitOfJoin(lines: seq<seq<byte>>, rest: seq<byte>)
    requires NewlineFree(lines) && NEWLINE !in rest
    ensures Lines(Join(lines) + rest) == lines && Rest(Join(lines) + rest) == rest
  {
    if lines == [] {
      assert Join(lines) + rest == rest;
      SplitNone(rest);
    } else {
      var after := Join(lines[1..]) + rest;
      assert Join(lines) + rest == lines[0] + [NEWLINE] + after;
      SplitOfJoin(lines[1..], rest);
      SplitFirst(lines[0], after);
    }
  }

  lemma JoinFirst(line: seq<byte>, lines: seq<seq<byte>>)
    ensures Join([line] + lines) == line + [NEWLINE] + Join(lines)
  {
    assert ([line] + lines)[1..] == lines;
  }

  lemma {:induction false} JoinOfSplit(s: seq<byte>)
    ensures Join(Lines(s)) + Rest(s) == s && NewlineFree(Lines(s))
    decreases |s|
  {
    if NEWLINE !in s {
      SplitNone(s);
    } else {
      var line, after := FirstLine(s);
      SplitFirst(line, after);
      JoinOfSplit(after);
      JoinFirst(line, Lines(after));
      Regroup(line + [NEWLINE], Join(Lines(after)), Rest(after));
    }
  }

  /** Cutting a stream in two and splitting the parts in turn, the first rest in front of the second part. */
  lemma {:induction false} SplitAppend(s: seq<byte>, t: seq<byte>)
    ensures Lines(s + t) == Lines(s) + Lines(Rest(s) + t)
    ensures Rest(s + t) == Rest(Rest(s) + t)
    decreases |s|
  {
    if NEWLINE !in s {
      SplitNone(s);
      assert Lines(s) + Lines(Rest(s) + t) == Lines(s + t);
    } else {
      var line, after := FirstLine(s);
      SplitFirst(line, after);
      SplitAppend(after, t);
      Regroup(line + [NEWLINE], after, t);
      SplitFirst(line, after + t);
      Regroup([line], Lines(after), Lines(Rest(after) + t));
    }
  }

  // ---------------------------------------------------------------------------------------
  // Splitting chunk by chunk

  function Flatten(chunks: seq<seq<byte>>): seq<byte> {
    if chunks == [] then [] else Flatten(chunks[..|chunks| - 1]) + chunks[|chunks| - 1]
  }

  /** The lines delivered and the bytes left over after reading all chunks, one after the other. */
  function DeliveredAndLeft(chunks: seq<seq<byte>>): (seq<seq<byte>>, seq<byte>) {
    if chunks == [] then ([], []) else
    var (delivered, left) := DeliveredAndLeft(chunks[..|chunks| - 1]);
    var buffer := left + chunks[|chunks| - 1];
    (delivered + Lines(buffer), Rest(buffer))
  }

  /** However the stream is cut into reads, the same lines are delivered and the same bytes left over. */
  lemma {:induction false} ChunkingIsInvisible(chunks: seq<seq<byte>>)
    ensures DeliveredAndLeft(chunks) == (Lines(Flatten(chunks)), Rest(Flatten(chunks)))
  {
    if chunks != [] {
      var front := chunks[..|chunks| - 1];
      ChunkingIsInvisible(front);
      SplitAppend(Flatten(front), chunks[|chunks| - 1]);
    }
  }

  /** The lines found so far and those from index `next` on are all lines of the buffer. */
  ghost predicate Progress(buffer: seq<byte>, found: seq<seq<byte>>, next: nat, searched: nat) {
    && next + searched <= |buffer| && NEWLINE !in buffer[next..next + searched]
    && Lines(buffer) == found + Lines(buffer[next..])
    && Rest(buffer) == Rest(buffer[next..])
  }

  lemma ProgressStarts(buffer: seq<byte>, searched: nat)
    requires searched <= |buffer| && NEWLINE !in buffer[..searched]
    ensures Progress(buffer, [], 0, searched)
  {
    assert buffer[0..] == buffer;
  }

  lemma NoneInParts(a: seq<byte>, b: seq<byte>)
    requires NEWLINE !in a && NEWLINE !in b
    ensures NEWLINE !in a + b
  {
  }

  /** No newline from `next + searched` on: what is left is the rest. */
  lemma ProgressEnds(buffer: seq<byte>, found: seq<seq<byte>>, next: nat, searched: nat)
    requires Progress(buffer, found, next, searched) && NEWLINE !in buffer[next + searched..]
    ensures Lines(buffer) == found && Rest(buffer) == buffer[next..]
  {
    NoneInParts(buffer[next..next + searched], buffer[next + searched..]);
    assert buffer[next..] == buffer[next..next + searched] + buffer[next + searched..];
    SplitNone(buffer[next..]);
  }

  /** The first newline from `next + searched` on ends the line that starts at `next`. */
  lemma LineAt(buffer: seq<byte>, next: nat, searched: nat, eolPos: nat)
    requires next + searched <= eolPos < |buffer| && NEWLINE !in buffer[next..next + searched]
    requires buffer[eolPos] == NEWLINE && NEWLINE !in buffer[next + searched..][..eolPos - next - searched]
    ensures NEWLINE !in buffer[next..eolPos]
    ensures buffer[next..] == buffer[next..eolPos] + [NEWLINE] + buffer[eolPos + 1..]
  {
    var (checked, unsearched) := (buffer[next..next + searched], buffer[next + searched..][..eolPos - next - searched]);
    assert buffer[next..eolPos] == checked + unsearched;
  }

  lemma ProgressContinues(buffer: seq<byte>, found: seq<seq<byte>>, next: nat, searched: nat, eolPos: nat)
    requires Progress(buffer, found, next, searched)
    requires next + searched <= eolPos < |buffer|
    requires Position(buffer[next + searched..]) == Some(eolPos - next - searched)
    ensures Progress(buffer, found + [buffer[next..eolPos]], eolPos + 1, 0)
  {
    LineAt(buffer, next, searched, eolPos);
    SplitFirst(buffer[next..eolPos], buffer[eolPos + 1..]);
    Regroup(found, [buffer[next..eolPos]], Lines(buffer[eolPos + 1..]));
  }

  class Connection {
    var readBuffer: seq<byte>
    var delivered: seq<seq<byte>>
    ghost var received: seq<byte>

    /** What was delivered and what is buffered are the lines and the rest of everything received. */
    ghost predicate Valid()
      reads this
    {
      delivered == Lines(received) && readBuffer == Rest(received)
    }

    constructor ()
      ensures Valid() && received == [] && delivered == [] && readBuffer == []
    {
      readBuffer, delivered, received := [], [], [];
    }

    /** One read. An empty one means the peer is gone: the connection ends and nothing is delivered. */
    method Receive(chunk: seq<byte>) returns (open: bool)
      requires Valid()
      modifies this
      ensures Valid() && received == old(received) + chunk
      ensures open <==> chunk != []
      ensures !open ==> delivered == old(delivered) && readBuffer == old(readBuffer)
      ensures delivered == old(delivered) + Lines(old(readBuffer) + chunk)
      ensures readBuffer == Rest(old(readBuffer) + chunk)
    {
      SplitAppend(received, chunk);
      if chunk == [] {
        assert old(readBuffer) + chunk == readBuffer && received + chunk == received;
        return false;
      }
      readBuffer := readBuffer + chunk;
      received := received + chunk;
      DeliverLines(|readBuffer| - |chunk|);
      return true;
    }

    /**
     The connection's loop of reads, which an empty read ends: after `count` reads the lines
     delivered and the bytes buffered are those of the whole stream received, however it was cut.
     */
    method ReceiveAll(chunks: seq<seq<byte>>) returns (count: nat)
      requires Valid() && received == []
      modifies this
      ensures Valid() && count <= |chunks| && received == Flatten(chunks[..count])
      ensures (delivered, readBuffer) == DeliveredAndLeft(chunks[..count])
      ensures forall i | 0 <= i < count :: chunks[i] != []
      ensures count < |chunks| ==> chunks[count] == []
    {
      count := 0;
      while count < |chunks|
        invariant Valid() && count <= |chunks| && received == Flatten(chunks[..count])
        invariant forall i | 0 <= i < count :: chunks[i] != []
      {
        assert received + chunks[count] == Flatten(chunks[..count + 1]) by {
          assert chunks[..count + 1][..count] == chunks[..count];
        }
        var open := Receive(chunks[count]);
        if !open {
          assert received == Flatten(chunks[..count]);
          break;
        }
        count := count + 1;
      }
      ChunkingIsInvisible(chunks[..count]);
    }

    /** Delivers every complete line of the buffer, whose first `searched` bytes hold no newline. */
    method DeliverLines(searched: nat)
      requires searched <= |readBuffer| && NEWLINE !in readBuffer[..searched]
      modifies this`readBuffer, this`delivered
      ensures delivered == old(delivered) + Lines(old(readBuffer)) && readBuffer == Rest(old(readBuffer))
    {
      var nextLineIndex: nat := 0;
      var searchStart := searched;
      ghost var found: seq<seq<byte>> := [];
      ProgressStarts(readBuffer, searched);
      while true
        invariant readBuffer == old(readBuffer) && delivered == old(delivered) + found
        invariant Progress(readBuffer, found, nextLineIndex, searchStart)
        decreases |readBuffer| - nextLineIndex
      {
        var position := Position(readBuffer[nextLineIndex + searchStart..]);
        if position.None? {
          ProgressEnds(readBuffer, found, nextLineIndex, searchStart);
          break;
        }
        var eolPos := position.value + nextLineIndex + searchStart;
        ProgressContinues(readBuffer, found, nextLineIndex, searchStart, eolPos);
        Regroup(old(delivered), found, [readBuffer[nextLineIndex..eolPos]]);
        found := found + [readBuffer[nextLineIndex..eolPos]];
        delivered := delivered + [readBuffer[nextLineIndex..eolPos]];
        nextLineIndex := eolPos + 1;
        if nextLineIndex >= |readBuffer| {
          nextLineIndex := |readBuffer|;
          ProgressEnds(readBuffer, found, nextLineIndex, 0);
          break;
        }
        searchStart := 0;
      }
      if nextLineIndex > 0 {
        readBuffer := readBuffer[nextLineIndex..];
      }
    }
  }
}
