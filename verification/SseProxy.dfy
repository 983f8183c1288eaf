/**
 * The event-stream proxy of the demo server (demo/server/sse.ts): it cuts what arrives into blocks at
 * blank lines and forwards the blocks of the active scope.
 */
module SseProxy {
  import opened Options
  import opened Utf8
  import opened Sequences

  const SEPARATOR := "\n\n"

  predicate SeparatorAt(s: string, i: nat) {
    i + 1 < |s| && s[i] == '\n' && s[i + 1] == '\n'
  }

  /** buffer.indexOf("\n\n") */
  function IndexOfSeparator(s: string): (r: Option<nat>)
    ensures r.Some? ==> SeparatorAt(s, r.value) && forall j: nat :: j < r.value ==> !SeparatorAt(s, j)
    ensures r.None? ==> forall j: nat :: !SeparatorAt(s, j)
  {
    if |s| < 2 then None
    else if SeparatorAt(s, 0) then Some(0)
    else
      var later := IndexOfSeparator(s[1..]);
      assert forall j: nat :: j > 0 && SeparatorAt(s, j) ==> SeparatorAt(s[1..], j - 1);
      if later.Some? then Some(later.value + 1) else None
  }

  /** The terminated blocks of a text, in order. */
  function Blocks(s: string): seq<string>
    decreases |s|
  {
    match IndexOfSeparator(s)
    case None => []
    case Some(i) => [s[..i]] + Blocks(s[i + 2..])
  }

  /** What follows the last terminated block. */
  function Rest(s: string): string
    decreases |s|
  {
    match IndexOfSeparator(s)
    case None => s
    case Some(i) => Rest(s[i + 2..])
  }

  // ---------------------------------------------------------------------------------------------
  // The scope filter
  // ---------------------------------------------------------------------------------------------

  /** What JSON parsing makes of the text of a data line. */
  datatype Payload =
    | Blank
    | Malformed
    | Connected
    | Event(scope: Option<string>)

  function Lines(s: string): (r: seq<string>)
    ensures r != []
  {
    if s == "" then [""]
    else if s[0] == '\n' then [""] + Lines(s[1..])
    else var rest := Lines(s[1..]); [[s[0]] + rest[0]] + rest[1..]
  }

  function JoinedLines(lines: seq<string>): string {
    if lines == [] then "" else if |lines| == 1 then lines[0] else lines[0] + "\n" + JoinedLines(lines[1..])
  }

  lemma AddChar(c: char, rest: seq<string>)
    requires rest != []
    ensures JoinedLines([[c] + rest[0]] + rest[1..]) == [c] + JoinedLines(rest)
  {
    var lines := [[c] + rest[0]] + rest[1..];
    assert lines[1..] == rest[1..];
    if |rest| > 1 {
      ConcatAssoc([c], rest[0], "\n" + JoinedLines(rest[1..]));
      ConcatAssoc([c] + rest[0], "\n", JoinedLines(rest[1..]));
      ConcatAssoc(rest[0], "\n", JoinedLines(rest[1..]));
    }
  }

  lemma AddBreak(rest: seq<string>)
    requires rest != []
    ensures JoinedLines([""] + rest) == "\n" + JoinedLines(rest)
  {
    assert ([""] + rest)[1..] == rest;
    assert "" + "\n" == "\n";
  }

  /** The lines are what stands between the line breaks. */
  lemma {:induction false} LinesAreJoined(s: string)
    ensures JoinedLines(Lines(s)) == s && forall k :: 0 <= k < |Lines(s)| ==> '\n' !in Lines(s)[k]
  {
    if s != "" {
      var rest := Lines(s[1..]);
      LinesAreJoined(s[1..]);
      AddChar(s[0], rest);
      AddBreak(rest);
      assert [s[0]] + s[1..] == s;
    }
  }

  predicate DataLine(line: string, read: string -> Payload) {
    "data:" <= line && read(line[5..]) != Blank
  }

  /** Line k is the first one that carries data. */
  predicate Decides(lines: seq<string>, k: nat, read: string -> Payload) {
    && k < |lines| && DataLine(lines[k], read)
    && forall j :: 0 <= j < k ==> !DataLine(lines[j], read)
  }

  /** An event that names no scope belongs to no scope. */
  predicate Accepts(p: Payload, scope: string) {
    p == Connected || (p.Event? && p.scope == Some(scope))
  }

  /** Comments pass; otherwise a scope must be active and the first line with data must accept it. */
  ghost predicate Passes(block: string, scope: string, read: string -> Payload) {
    ":" <= block ||
    (scope != "" && exists k: nat :: Decides(Lines(block), k, read) && Accepts(read(Lines(block)[k][5..]), scope))
  }

  /**
   * What passes: a comment; with an active scope, the connection notice, and an event of that very scope.
   * An event of another scope or of none, a malformed line, and a block without data do not.
   */
  lemma PassesExactly(block: string, scope: string, read: string -> Payload)
    ensures ":" <= block ==> Passes(block, scope, read)
    ensures !(":" <= block) && scope == "" ==> !Passes(block, scope, read)
    ensures !(":" <= block) && (forall k: nat :: !Decides(Lines(block), k, read)) ==> !Passes(block, scope, read)
    ensures forall k: nat :: !(":" <= block) && scope != "" && Decides(Lines(block), k, read) ==>
              (Passes(block, scope, read)
               <==> match read(Lines(block)[k][5..])
                    case Connected => true
                    case Event(Some(s)) => s == scope
                    case _ => false)
  {
    forall j: nat, k: nat | Decides(Lines(block), j, read) && Decides(Lines(block), k, read)
      ensures j == k
    {
    }
  }

  ghost function Passing(blocks: seq<string>, scope: string, read: string -> Payload): seq<string> {
    if blocks == [] then []
    else (if Passes(blocks[0], scope, read) then [blocks[0]] else []) + Passing(blocks[1..], scope, read)
  }

  /** sseBlockMatchesActiveScope; the empty scope is the absent one. */
  method BlockMatchesActiveScope(block: string, scope: string, read: string -> Payload) returns (r: bool)
    ensures r <==> Passes(block, scope, read)
  {
    if ":" <= block {
      return true;
    }
    if scope == "" {
      return false;
    }
    var lines := Lines(block);
    for i := 0 to |lines|
      invariant forall j :: 0 <= j < i ==> !DataLine(lines[j], read)
    {
      if "data:" <= lines[i] {
        var parsed := read(lines[i][5..]);
        if parsed != Blank {
          assert Decides(lines, i, read);
          assert forall k: nat :: Decides(lines, k, read) ==> k == i;
          match parsed {
            case Connected => return true;
            case Event(s) => return s.Some? && s.value != "" && s.value == scope;
            case _ => return false;
          }
        }
      }
    }
    r := false;
  }

  // ---------------------------------------------------------------------------------------------
  // The proxy
  // ---------------------------------------------------------------------------------------------

  class Proxy {
    const read: string -> Payload
    var scope: string
    var buffer: string
    /** The blocks written to the connected clients, each with its separator. */
    var sent: seq<string>

    constructor (read: string -> Payload, scope: string)
      ensures this.read == read && this.scope == scope && buffer == "" && sent == []
    {
      this.read := read;
      this.scope := scope;
      buffer := "";
      sent := [];
    }

    method OnData(chunk: seq<Byte>)
      modifies this`buffer, this`sent
      ensures buffer == Rest(old(buffer) + Decode(chunk))
      ensures sent == old(sent) + Passing(Blocks(old(buffer) + Decode(chunk)), scope, read)
    {
      buffer := buffer + Decode(chunk);
      ghost var text := buffer;
      ghost var done: seq<string> := [];
      while IndexOfSeparator(buffer).Some?
        invariant Rest(buffer) == Rest(text)
        invariant done + Blocks(buffer) == Blocks(text)
        invariant sent == old(sent) + Passing(done, scope, read)
        decreases |buffer|
      {
        var sep := IndexOfSeparator(buffer).value;
        var block := buffer[..sep];
        NextBlock(done, buffer);
        PassingAppend(done, block, scope, read);
        buffer := buffer[sep + 2..];
        done := done + [block];
        var matches := BlockMatchesActiveScope(block, scope, read);
        if matches {
          sent := sent + [block];
        }
      }
      assert done + [] == done;
    }
  }

  lemma NextBlock(done: seq<string>, s: string)
    requires IndexOfSeparator(s).Some?
    ensures var i := IndexOfSeparator(s).value;
            && done + Blocks(s) == (done + [s[..i]]) + Blocks(s[i + 2..])
            && Rest(s) == Rest(s[i + 2..])
  {
    var i := IndexOfSeparator(s).value;
    ConcatAssoc(done, [s[..i]], Blocks(s[i + 2..]));
  }

  lemma {:induction false} PassingConcat(a: seq<string>, b: seq<string>, scope: string, read: string -> Payload)
    ensures Passing(a + b, scope, read) == Passing(a, scope, read) + Passing(b, scope, read)
  {
    if a == [] {
      assert a + b == b;
      assert Passing(a, scope, read) + Passing(b, scope, read) == Passing(b, scope, read);
    } else {
      var first := if Passes(a[0], scope, read) then [a[0]] else [];
      assert (a + b)[0] == a[0] && (a + b)[1..] == a[1..] + b;
      PassingConcat(a[1..], b, scope, read);
      ConcatAssoc(first, Passing(a[1..], scope, read), Passing(b, scope, read));
    }
  }

  lemma PassingAppend(blocks: seq<string>, b: string, scope: string, read: string -> Payload)
    ensures Passing(blocks + [b], scope, read)
            == Passing(blocks, scope, read) + (if Passes(b, scope, read) then [b] else [])
  {
    PassingConcat(blocks, [b], scope, read);
    assert [b][1..] == [];
  }

  // ---------------------------------------------------------------------------------------------
  // What a split is
  // ---------------------------------------------------------------------------------------------

  /** The blocks as a client receives them. */
  function Joined(blocks: seq<string>): string {
    if blocks == [] then "" else blocks[0] + SEPARATOR + Joined(blocks[1..])
  }

  /** A block contains no separator, not even together with half of its own. */
  predicate IsBlock(b: string) {
    IndexOfSeparator(b + SEPARATOR) == Some(|b|)
  }

  predicate AreBlocks(blocks: seq<string>) {
    forall k :: 0 <= k < |blocks| ==> IsBlock(blocks[k])
  }

  lemma FirstSeparatorIs(s: string, i: nat)
    requires SeparatorAt(s, i) && forall j: nat :: j < i ==> !SeparatorAt(s, j)
    ensures IndexOfSeparator(s) == Some(i)
  {
  }

  lemma SeparatorInPrefix(a: string, b: string, i: nat)
    requires i + 1 < |a|
    ensures SeparatorAt(a + b, i) == SeparatorAt(a, i)
  {
  }

  lemma FirstSeparatorAppend(a: string, b: string)
    requires IndexOfSeparator(a).Some?
    ensures IndexOfSeparator(a + b) == IndexOfSeparator(a)
  {
    var i := IndexOfSeparator(a).value;
    forall j: nat | j <= i
      ensures SeparatorAt(a + b, j) == SeparatorAt(a, j)
    {
      SeparatorInPrefix(a, b, j);
    }
    FirstSeparatorIs(a + b, i);
  }

  lemma BlockFirst(b: string, s: string)
    requires IsBlock(b)
    ensures Blocks(b + SEPARATOR + s) == [b] + Blocks(s)
    ensures Rest(b + SEPARATOR + s) == Rest(s)
  {
    var text := b + SEPARATOR + s;
    FirstSeparatorAppend(b + SEPARATOR, s);
    assert text[..|b|] == b && text[|b| + 2..] == s;
  }

  lemma FrontIsBlock(s: string)
    requires IndexOfSeparator(s).Some?
    ensures var i := IndexOfSeparator(s).value;
            IsBlock(s[..i]) && s == s[..i] + SEPARATOR + s[i + 2..]
  {
    var i := IndexOfSeparator(s).value;
    var front := s[..i] + SEPARATOR;
    assert s == front + s[i + 2..];
    forall j: nat | j <= i
      ensures SeparatorAt(front, j) == SeparatorAt(s, j)
    {
      SeparatorInPrefix(front, s[i + 2..], j);
    }
    FirstSeparatorIs(front, i);
  }

  /** The split loses nothing, and every piece is a block. */
  lemma {:induction false} SplitSound(s: string)
    ensures s == Joined(Blocks(s)) + Rest(s)
    ensures AreBlocks(Blocks(s)) && IndexOfSeparator(Rest(s)).None?
    decreases |s|
  {
    if IndexOfSeparator(s).Some? {
      FrontIsBlock(s);
      var i := IndexOfSeparator(s).value;
      var later := s[i + 2..];
      SplitSound(later);
      assert Joined(Blocks(s)) == s[..i] + SEPARATOR + Joined(Blocks(later));
    }
  }

  lemma {:induction false} SplitUnique(blocks: seq<string>, rest: string)
    requires AreBlocks(blocks) && IndexOfSeparator(rest).None?
    ensures Blocks(Joined(blocks) + rest) == blocks && Rest(Joined(blocks) + rest) == rest
  {
    if blocks == [] {
      assert Joined(blocks) + rest == rest;
    } else {
      var b, later := blocks[0], Joined(blocks[1..]) + rest;
      SplitUnique(blocks[1..], rest);
      BlockFirst(b, later);
      ConcatAssoc(b + SEPARATOR, Joined(blocks[1..]), rest);
      assert Joined(blocks) + rest == b + SEPARATOR + later && [b] + blocks[1..] == blocks;
    }
  }

  /** Blocks and Rest are the one way to write a text as separated blocks and an unterminated rest. */
  lemma SplitExactly(s: string, blocks: seq<string>, rest: string)
    ensures Blocks(s) == blocks && Rest(s) == rest
            <==> s == Joined(blocks) + rest && AreBlocks(blocks) && IndexOfSeparator(rest).None?
  {
    SplitSound(s);
    if s == Joined(blocks) + rest && AreBlocks(blocks) && IndexOfSeparator(rest).None? {
      SplitUnique(blocks, rest);
    }
  }

  lemma {:induction false} PassingAreBlocks(blocks: seq<string>, scope: string, read: string -> Payload)
    requires AreBlocks(blocks)
    ensures AreBlocks(Passing(blocks, scope, read))
  {
    if blocks != [] {
      PassingAreBlocks(blocks[1..], scope, read);
    }
  }

  /** A client that splits what it was sent finds the forwarded blocks and nothing else. */
  lemma ForwardedIsReadBack(s: string, scope: string, read: string -> Payload)
    ensures var forwarded := Passing(Blocks(s), scope, read);
            Blocks(Joined(forwarded)) == forwarded && Rest(Joined(forwarded)) == ""
  {
    var forwarded := Passing(Blocks(s), scope, read);
    SplitSound(s);
    PassingAreBlocks(Blocks(s), scope, read);
    SplitUnique(forwarded, "");
    assert Joined(forwarded) + "" == Joined(forwarded);
  }

  // ---------------------------------------------------------------------------------------------
  // Chunking
  // ---------------------------------------------------------------------------------------------

  lemma {:induction false} SplitAppend(a: string, b: string)
    ensures Blocks(a + b) == Blocks(a) + Blocks(Rest(a) + b)
    ensures Rest(a + b) == Rest(Rest(a) + b)
    decreases |a|
  {
    if IndexOfSeparator(a).Some? {
      var i := IndexOfSeparator(a).value;
      FirstSeparatorAppend(a, b);
      assert (a + b)[..i] == a[..i] && (a + b)[i + 2..] == a[i + 2..] + b;
      SplitAppend(a[i + 2..], b);
    }
  }

  datatype State = State(buffer: string, sent: seq<string>)

  /** The new state that Proxy.OnData promises. */
  ghost function AfterChunk(st: State, chunk: seq<Byte>, scope: string, read: string -> Payload): State {
    var text := st.buffer + Decode(chunk);
    State(Rest(text), st.sent + Passing(Blocks(text), scope, read))
  }

  ghost function AfterChunks(st: State, chunks: seq<seq<Byte>>, scope: string, read: string -> Payload): State
    decreases |chunks|
  {
    if chunks == [] then st else AfterChunks(AfterChunk(st, chunks[0], scope, read), chunks[1..], scope, read)
  }

  /** The state that a text leaves behind when it arrives at once. */
  ghost function StateAfter(text: string, scope: string, read: string -> Payload): State {
    State(Rest(text), Passing(Blocks(text), scope, read))
  }

  lemma OneMoreChunk(text: string, chunk: seq<Byte>, scope: string, read: string -> Payload)
    ensures AfterChunk(StateAfter(text, scope, read), chunk, scope, read)
            == StateAfter(text + Decode(chunk), scope, read)
  {
    var more := Decode(chunk);
    SplitAppend(text, more);
    PassingConcat(Blocks(text), Blocks(Rest(text) + more), scope, read);
  }

  lemma {:induction false} ChunksActAsOne(text: string, chunks: seq<seq<Byte>>, scope: string, read: string -> Payload)
    ensures AfterChunks(StateAfter(text, scope, read), chunks, scope, read)
            == StateAfter(text + Received(chunks), scope, read)
    decreases |chunks|
  {
    if chunks == [] {
      assert text + "" == text;
    } else {
      OneMoreChunk(text, chunks[0], scope, read);
      ChunksActAsOne(text + Decode(chunks[0]), chunks[1..], scope, read);
      ConcatAssoc(text, Decode(chunks[0]), Received(chunks[1..]));
    }
  }

  /**
   * However the text arrives, the proxy has forwarded the passing blocks of all of it and holds its
   * unterminated rest.
   */
  lemma ChunkingIsInvisible(chunks: seq<seq<Byte>>, scope: string, read: string -> Payload)
    ensures AfterChunks(State("", []), chunks, scope, read)
            == StateAfter(Received(chunks), scope, read)
  {
    ChunksActAsOne("", chunks, scope, read);
    assert "" + Received(chunks) == Received(chunks);
    assert StateAfter("", scope, read) == State("", []);
  }

  /** For a stream of bytes this holds of the text that was sent, provided no chunk begins inside a character. */
  lemma ByteChunkingIsInvisible(chunks: seq<seq<Byte>>, text: string, scope: string, read: string -> Payload)
    requires Flatten(chunks) == Encode(text) && CutBetweenCharacters(chunks)
    ensures AfterChunks(State("", []), chunks, scope, read) == StateAfter(text, scope, read)
  {
    ChunksKeepTextExactly(chunks, text);
    ChunkingIsInvisible(chunks, scope, read);
  }

  /** The proviso is needed: the blocks and the rest are those of the text sent exactly when it holds. */
  lemma SplitSurvivesExactly(chunks: seq<seq<Byte>>, text: string)
    requires Flatten(chunks) == Encode(text)
    ensures Blocks(Received(chunks)) == Blocks(text) && Rest(Received(chunks)) == Rest(text)
            <==> CutBetweenCharacters(chunks)
  {
    ChunksKeepTextExactly(chunks, text);
    SplitSound(Received(chunks));
    SplitSound(text);
  }
}
