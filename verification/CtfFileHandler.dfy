/** The capture of a trace into numbered files: chunks go through a sliding window, and every
    start tag that is seen in the window begins a new file. */
module CtfFileHandlers {
  import opened Sequences
  import opened Splitting

  /** Files by number; number 0 is the requested path, `k` its sibling with the suffix `_k`. */
  type Disk = map<nat, seq<byte>>

  function Contents(disk: Disk, k: nat): seq<byte> {
    if k in disk then disk[k] else []
  }

  /** `open(path, "ab")` and a write: creates the file when it does not exist. */
  function Append(disk: Disk, k: nat, b: seq<byte>): Disk {
    disk[k := Contents(disk, k) + b]
  }

  /** The number of the current file; -1 before the first. */
  type FileNumber = n: int | n >= -1 witness -1

  datatype Handler = Handler(expectTag: bool, disk: Disk, number: FileNumber, window: seq<byte>, found: bool)

  function Start(expectTag: bool, disk: Disk): Handler {
    Handler(expectTag, disk - {0}, if expectTag then -1 else 0, [], false)
  }

  function SaveIntegral(h: Handler, chunk: seq<byte>): Handler
  {
    var i := Find(CTF_TAG, chunk);
    if i != -1 then
      var disk := if h.number >= 0 then Append(h.disk, h.number, chunk[..i]) else h.disk;
      var n := h.number + 1;
      h.(number := n, found := true, disk := Append(disk - {n}, n, chunk[i + |CTF_TAG|..]))
    else if h.number >= 0 then h.(disk := Append(h.disk, h.number, chunk))
    else h
  }

  lemma WindowAside(h: Handler, window: seq<byte>, chunk: seq<byte>)
    ensures SaveIntegral(h.(window := window), chunk) == SaveIntegral(h, chunk).(window := window)
  {
  }

  /** A tag is cut by the boundary between the window and the chunk. */
  predicate TagAcross(window: seq<byte>, chunk: seq<byte>) {
    Find(CTF_TAG, window) == -1 && Find(CTF_TAG, chunk) == -1 && Find(CTF_TAG, window + chunk) != -1
  }

  function Save(h: Handler, chunk: seq<byte>): (r: Handler)
  {
    var joined := h.window + chunk;
    if chunk == [] then h
    else if |h.window| < |CTF_TAG| - 1 then h.(window := joined)
    else if TagAcross(h.window, chunk) then
      var i := Find(CTF_TAG, joined);
      SaveIntegral(h, joined[..i]).(window := joined[i..])
    else SaveIntegral(h, h.window).(window := chunk)
  }

  function Flush(h: Handler): Handler
  {
    if h.window != [] then SaveIntegral(h, h.window) else h
  }

  function SaveAll(h: Handler, chunks: seq<seq<byte>>): (r: Handler)
    decreases |chunks|
  {
    if chunks == [] then h else SaveAll(Save(h, chunks[0]), chunks[1..])
  }

  // ------------------------------------------------------------- conservation

  /** `log` is what was written: with a start tag expected, first the bytes dropped before
      the first tag; then the files, in order. Every tag seen began a new entry. */
  ghost predicate Logged(h: Handler, log: seq<seq<byte>>) {
    var first := if h.expectTag then 1 else 0;
    && |log| == h.number + 1 + first >= 1
    && (forall k: nat :: k <= h.number ==> Contents(h.disk, k) == log[k + first])
    && (h.found <==> |log| > 1)
  }

  lemma {:induction false} JoinExtend(tag: seq<byte>, log: seq<seq<byte>>, x: seq<byte>)
    requires log != []
    ensures Join(tag, Init(log) + [Last(log) + x]) == Join(tag, log) + x
    decreases |log|
  {
    var longer := Init(log) + [Last(log) + x];
    if |log| > 1 {
      JoinExtend(tag, log[1..], x);
      assert longer[1..] == Init(log[1..]) + [Last(log[1..]) + x];
      assert log[0] + tag + (Join(tag, log[1..]) + x) == (log[0] + tag + Join(tag, log[1..])) + x;
    }
  }

  lemma {:induction false} JoinSnoc(tag: seq<byte>, log: seq<seq<byte>>, x: seq<byte>)
    requires log != []
    ensures Join(tag, log + [x]) == Join(tag, log) + (tag + x)
    decreases |log|
  {
    var longer := log + [x];
    if |log| > 1 {
      JoinSnoc(tag, log[1..], x);
      assert longer[1..] == log[1..] + [x];
      var j := Join(tag, log[1..]);
      assert log[0] + tag + (j + (tag + x)) == (log[0] + tag + j) + (tag + x);
    } else {
      assert longer[1..] == [x];
      assert log[0] + tag + x == log[0] + (tag + x);
    }
  }

  /** The log after a chunk was written: its first tag, if any, begins a new entry. */
  ghost function Log(log: seq<seq<byte>>, chunk: seq<byte>): seq<seq<byte>>
    requires log != []
  {
    var i := Find(CTF_TAG, chunk);
    if i == -1 then Init(log) + [Last(log) + chunk]
    else Init(log) + [Last(log) + chunk[..i], chunk[i + |CTF_TAG|..]]
  }

  /** What file `k` holds after a chunk was written. */
  ghost function SavedFile(h: Handler, chunk: seq<byte>, k: nat): seq<byte> {
    var i := Find(CTF_TAG, chunk);
    if i != -1 && k == h.number + 1 then chunk[i + |CTF_TAG|..]
    else if k == h.number then Contents(h.disk, k) + if i == -1 then chunk else chunk[..i]
    else Contents(h.disk, k)
  }

  lemma SaveIntegralFile(h: Handler, chunk: seq<byte>, k: nat)
    ensures Contents(SaveIntegral(h, chunk).disk, k) == SavedFile(h, chunk, k)
  {
    hide Find, FindFrom;
    var i := Find(CTF_TAG, chunk);
    if i != -1 {
      assert [] + chunk[i + |CTF_TAG|..] == chunk[i + |CTF_TAG|..];
    }
  }

  /** Writing a chunk loses no byte and leaves earlier files (and files of an earlier capture
      with higher numbers) alone. */
  lemma IntegralLogged(h: Handler, log: seq<seq<byte>>, chunk: seq<byte>)
    requires Logged(h, log)
    ensures Logged(SaveIntegral(h, chunk), Log(log, chunk))
    ensures forall k: nat :: k < h.number || k > h.number + 1 ==>
              Contents(SaveIntegral(h, chunk).disk, k) == Contents(h.disk, k)
  {
    hide Find, FindFrom, Contents, Append;
    var i := Find(CTF_TAG, chunk);
    var first := if h.expectTag then 1 else 0;
    var h', log' := SaveIntegral(h, chunk), Log(log, chunk);
    forall k: nat
      ensures Contents(h'.disk, k) == SavedFile(h, chunk, k)
    {
      SaveIntegralFile(h, chunk, k);
    }
    forall k: nat | k <= h'.number
      ensures SavedFile(h, chunk, k) == log'[k + first]
    {
    }
  }

  /** A chunk creates the file it is written to, and the one before a tag, even if it has nothing
      for them, and no other. */
  lemma FilesCreated(h: Handler, chunk: seq<byte>, k: nat)
    ensures var r := SaveIntegral(h, chunk);
            && (k in r.disk <==> k in h.disk || k == h.number || k == r.number)
            && r.number == h.number + if Find(CTF_TAG, chunk) == -1 then 0 else 1
  {
    hide Find, FindFrom;
  }

  lemma LogJoin(log: seq<seq<byte>>, chunk: seq<byte>)
    requires log != []
    ensures Join(CTF_TAG, Log(log, chunk)) == Join(CTF_TAG, log) + chunk
  {
    hide Find, FindFrom, Join;
    var i := Find(CTF_TAG, chunk);
    if i == -1 {
      JoinExtend(CTF_TAG, log, chunk);
    } else {
      var a, rest := chunk[..i], chunk[i + |CTF_TAG|..];
      FindSplits(CTF_TAG, chunk);
      JoinExtend(CTF_TAG, log, a);
      var log1 := Init(log) + [Last(log) + a];
      JoinSnoc(CTF_TAG, log1, rest);
      assert Log(log, chunk) == log1 + [rest];
      AssocPairs(Join(CTF_TAG, log), a, CTF_TAG, rest);
    }
  }

  /** `s` is what was received: what is logged, then the window. */
  ghost predicate Conserved(h: Handler, log: seq<seq<byte>>, s: seq<byte>) {
    Logged(h, log) && Join(CTF_TAG, log) + h.window == s
  }

  ghost function SaveLog(h: Handler, log: seq<seq<byte>>, chunk: seq<byte>): seq<seq<byte>>
    requires log != []
  {
    var joined := h.window + chunk;
    if chunk == [] || |h.window| < |CTF_TAG| - 1 then log
    else if TagAcross(h.window, chunk) then Log(log, joined[..Find(CTF_TAG, joined)])
    else Log(log, h.window)
  }

  lemma {:induction false} IntegralConserves(h: Handler, log: seq<seq<byte>>, j: seq<byte>, a: seq<byte>, b: seq<byte>)
    requires Logged(h, log) && j == Join(CTF_TAG, log)
    ensures Conserved(SaveIntegral(h, a).(window := b), Log(log, a), j + (a + b))
  {
    IntegralLogged(h, log, a);
    LogJoin(log, a);
    assert (j + a) + b == j + (a + b);
  }

  lemma {:induction false} SaveConserves(h: Handler, log: seq<seq<byte>>, s: seq<byte>, chunk: seq<byte>)
    requires Conserved(h, log, s)
    ensures Conserved(Save(h, chunk), SaveLog(h, log, chunk), s + chunk)
  {
    hide Find, FindFrom, Join, SaveIntegral, Log;
    var w, joined, j := h.window, h.window + chunk, Join(CTF_TAG, log);
    assert (j + w) + chunk == j + joined;
    if chunk == [] {
      assert s + chunk == s;
    } else if |w| < |CTF_TAG| - 1 {
    } else if TagAcross(w, chunk) {
      var i := Find(CTF_TAG, joined);
      IntegralConserves(h, log, j, joined[..i], joined[i..]);
      assert joined[..i] + joined[i..] == joined;
    } else {
      IntegralConserves(h, log, j, w, chunk);
    }
  }

  lemma {:induction false} SaveAllConserves(h: Handler, log: seq<seq<byte>>, s: seq<byte>, chunks: seq<seq<byte>>)
      returns (log': seq<seq<byte>>)
    requires Conserved(h, log, s)
    ensures Conserved(SaveAll(h, chunks), log', s + Concat(chunks))
    decreases |chunks|
  {
    hide Conserved, Save;
    LogNotEmpty(h, log, s);
    if chunks == [] {
      log' := log;
      assert s + Concat(chunks) == s;
    } else {
      SaveConserves(h, log, s, chunks[0]);
      log' := SaveAllConserves(Save(h, chunks[0]), SaveLog(h, log, chunks[0]), s + chunks[0], chunks[1..]);
      assert s + Concat(chunks) == s + chunks[0] + Concat(chunks[1..]);
    }
  }

  lemma LogNotEmpty(h: Handler, log: seq<seq<byte>>, s: seq<byte>)
    requires Conserved(h, log, s)
    ensures log != []
  {
  }

  lemma StartConserved(expectTag: bool, disk: Disk)
    ensures Conserved(Start(expectTag, disk), [[]], [])
  {
  }

  /** Main result. Whatever the chunks and the files left by an earlier capture: dropped
      bytes, files and window, joined by tags, are exactly the bytes received. */
  lemma BytesConserved(expectTag: bool, disk: Disk, chunks: seq<seq<byte>>) returns (log: seq<seq<byte>>)
    ensures var h := SaveAll(Start(expectTag, disk), chunks);
            Logged(h, log) && Join(CTF_TAG, log) + h.window == Concat(chunks)
  {
    StartConserved(expectTag, disk);
    log := SaveAllConserves(Start(expectTag, disk), [[]], [], chunks);
    assert [] + Concat(chunks) == Concat(chunks);
  }

  function NotEmpty(chunks: seq<seq<byte>>): seq<seq<byte>> {
    if chunks == [] then [] else (if chunks[0] == [] then [] else [chunks[0]]) + NotEmpty(chunks[1..])
  }

  /** Empty chunks, wherever they come, make no difference. */
  lemma {:induction false} EmptyChunksIgnored(h: Handler, chunks: seq<seq<byte>>)
    ensures SaveAll(h, chunks) == SaveAll(h, NotEmpty(chunks))
    decreases |chunks|
  {
    if chunks != [] {
      var rest := chunks[1..];
      EmptyChunksIgnored(Save(h, chunks[0]), rest);
      if chunks[0] == [] {
        assert NotEmpty(chunks) == NotEmpty(rest);
      } else {
        assert NotEmpty(chunks) == [chunks[0]] + NotEmpty(rest);
      }
    }
  }

  datatype CloseResult = Closed | ValueError

  class CtfFileHandler {
    var disk: Disk
    var fileNumber: FileNumber
    var slidingWindowChunkBuffer: seq<byte>
    var currentOutputPath: nat
    const expectStartTag: bool
    var startTagFound: bool

    ghost predicate Valid()
      reads this
    {
      fileNumber >= 0 ==> currentOutputPath == fileNumber
    }

    ghost function State(): Handler
      reads this
    {
      Handler(expectStartTag, disk, fileNumber, slidingWindowChunkBuffer, startTagFound)
    }

    constructor (disk: Disk, expectStartTag: bool := true)
      ensures Valid() && State() == Start(expectStartTag, disk)
    {
      fileNumber := if expectStartTag then -1 else 0;
      slidingWindowChunkBuffer := [];
      currentOutputPath := 0;
      this.expectStartTag := expectStartTag;
      startTagFound := false;
      this.disk := disk - {0};
    }

    method SaveIntegralChunk(piece: seq<byte>)
      requires Valid()
      modifies `disk, `fileNumber, `currentOutputPath, `startTagFound
      ensures Valid()
      ensures State() == SaveIntegral(old(State()), piece)
    {
      var chunk := piece;
      if Find(CTF_TAG, chunk) != -1 {
        var tagIdx := Find(CTF_TAG, chunk);
        var previousFileChunkPart := chunk[..tagIdx];
        chunk := chunk[tagIdx + |CTF_TAG|..];
        if fileNumber >= 0 {
          disk := Append(disk, currentOutputPath, previousFileChunkPart);
        }
        fileNumber := fileNumber + 1;
        if fileNumber == 0 {
          currentOutputPath := 0;
        } else {
          currentOutputPath := fileNumber;
        }
        startTagFound := true;
        if currentOutputPath in disk {
          disk := disk - {currentOutputPath};
        }
        assert currentOutputPath !in disk;
      }
      if fileNumber >= 0 {
        disk := Append(disk, currentOutputPath, chunk);
      }
    }

    method SaveChunk(piece: seq<byte>)
      requires Valid()
      modifies this
      ensures Valid()
      ensures State() == Save(old(State()), piece)
    {
      hide SaveIntegral, Find, FindFrom;
      var chunk := piece;
      if |chunk| == 0 {
        return;
      }
      var joinedChunk := slidingWindowChunkBuffer + chunk;
      if |slidingWindowChunkBuffer| < |CTF_TAG| - 1 {
        slidingWindowChunkBuffer := joinedChunk;
        return;
      }
      if && Find(CTF_TAG, slidingWindowChunkBuffer) == -1
         && Find(CTF_TAG, chunk) == -1
         && Find(CTF_TAG, joinedChunk) != -1 {
        var tagIdx := Find(CTF_TAG, joinedChunk);
        slidingWindowChunkBuffer := joinedChunk[..tagIdx];
        chunk := joinedChunk[tagIdx..];
      }
      WindowAside(old(State()), slidingWindowChunkBuffer, slidingWindowChunkBuffer);
      SaveIntegralChunk(slidingWindowChunkBuffer);
      slidingWindowChunkBuffer := chunk;
    }

    method Close() returns (r: CloseResult)
      requires Valid()
      modifies this
      ensures Valid()
      ensures State() == Flush(old(State()))
      ensures r == ValueError <==> expectStartTag && !startTagFound
    {
      if |slidingWindowChunkBuffer| > 0 {
        SaveIntegralChunk(slidingWindowChunkBuffer);
      }
      r := if expectStartTag && !startTagFound then ValueError else Closed;
    }
  }
}
