/**
 * The SD-card browser's own logic: the current-path arithmetic, the directory
 * prefix of file operations, the truncated file view, the classification of a
 * `/list` response, and the chunked-upload loop.
 */
module SdCard {
  import opened Outcomes
  import opened Text
  import opened JsValue
  import Base64

  /** A path the browser can hold: it starts at the card's root. */
  predicate IsPath(p: string) {
    |p| > 0 && p[0] == '/'
  }

  /** `navigateToFolder(name)`: the path of a sub-folder of `current`. */
  function NavigateToFolder(current: string, name: string): (p: string)
    ensures |p| == |current| + 1 + |name| || (current == "/" && |p| == 1 + |name|)
    ensures p[|p| - |name|..] == name && p[|p| - |name| - 1] == '/'
  {
    if current == "/" then "/" + name else current + "/" + name
  }

  /** `s.lastIndexOf(c)`: the last position holding `c`, or -1. */
  function LastIndexOf(s: string, c: char): (k: int)
    ensures -1 <= k < |s|
    ensures k == -1 <==> c !in s
    ensures k >= 0 ==> s[k] == c && forall j :: k < j < |s| ==> s[j] != c
    decreases |s|
  {
    if s == [] then -1
    else if s[|s| - 1] == c then |s| - 1
    else LastIndexOf(s[..|s| - 1], c)
  }

  /**
   * `navigateUp()`: the root stays; otherwise cut at the last '/', which gives the root
   * when that slash is the first character. Without any slash, `substring(0, -1)`
   * clamps to the empty string.
   */
  function NavigateUp(current: string): (up: string)
    ensures current == "/" ==> up == "/"
    ensures '/' !in current ==> up == ""
    ensures |current| > 1 && '/' in current[1..] ==> up < current && current[|up|] == '/' && '/' !in current[|up| + 1..]
    ensures current != "/" && '/' in current && '/' !in current[1..] ==> up == "/"
  {
    if current == "/" then "/"
    else
      var k := LastIndexOf(current, '/');
      if k == 0 then "/" else if k < 0 then "" else current[..k]
  }

  /** The directory prefix of the read, upload, delete, mkdir and chunk-upload paths. */
  function DirPrefix(current: string): (d: string)
    ensures |d| > 0 && d[|d| - 1] == '/'
  {
    if current == "/" then current else current + "/"
  }

  /** A sub-folder's path is the directory prefix followed by the folder name. */
  lemma PrefixThenName(current: string, name: string)
    ensures NavigateToFolder(current, name) == DirPrefix(current) + name
  {
  }

  /** Going up from a sub-folder whose name holds no '/' comes back to where it started. */
  lemma UpAfterDown(current: string, name: string)
    requires current != "" && '/' !in name
    ensures NavigateUp(NavigateToFolder(current, name)) == current
  {
    var p := NavigateToFolder(current, name);
    var k := if current == "/" then 0 else |current|;
    assert p[k] == '/';
    assert forall j :: k < j < |p| ==> p[j] != '/' by {
      forall j | k < j < |p|
        ensures p[j] != '/'
      {
        assert p[j] == name[j - k - 1];
      }
    }
    assert LastIndexOf(p, '/') == k;
    if current != "/" {
      assert p[..k] == current;
    }
  }

  /** Both moves keep the path rooted. */
  lemma MovesStayRooted(current: string, name: string)
    requires IsPath(current)
    ensures IsPath(NavigateToFolder(current, name))
    ensures IsPath(NavigateUp(current))
  {
    var k := LastIndexOf(current, '/');
    assert '/' in current by { assert current[0] == '/'; }
  }

  /** Going up from anywhere but the root shortens a rooted path, so repeated moves up reach the root. */
  lemma UpShortens(current: string)
    requires IsPath(current) && current != "/"
    ensures |NavigateUp(current)| < |current|
  {
    assert '/' in current by { assert current[0] == '/'; }
  }

  const MaxDisplayLength: nat := 500

  /**
   * `displayContent`: the whole content in full view, else `substring(0, 500)`. The
   * content is the JavaScript string, so the 500 are UTF-16 code units, and the cut can
   * fall between the two halves of a surrogate pair.
   */
  function DisplayContent(content: seq<CodeUnit>, showFull: bool): (shown: seq<CodeUnit>)
    ensures shown <= content
    ensures showFull ==> shown == content
    ensures !showFull ==> |shown| == if |content| < MaxDisplayLength then |content| else MaxDisplayLength
  {
    if showFull then content
    else if |content| < MaxDisplayLength then content else content[..MaxDisplayLength]
  }

  /** The "more / less" button is rendered when the content is longer than 500 code units. */
  predicate HasToggle(content: seq<CodeUnit>) {
    |content| > MaxDisplayLength
  }

  /** The toggle appears exactly when the truncated view hides part of the content. */
  lemma ToggleWhenTruncated(content: seq<CodeUnit>)
    ensures HasToggle(content) <==> DisplayContent(content, false) != content
  {
  }

  /**
   * Lengths are counted in code units, not characters: a text of 300 characters above
   * U+FFFF is 600 units long, so the toggle shows and the truncated view holds 500 units,
   * which are 250 of the characters.
   */
  lemma SupplementaryTextIsTruncated(text: string)
    requires |text| == 300 && forall i :: 0 <= i < |text| ==> text[i] as int >= 0x1_0000
    ensures HasToggle(Utf16(text))
    ensures |DisplayContent(Utf16(text), false)| == MaxDisplayLength
  {
    Utf16OfSupplementary(text);
  }

  /** The browser state `listFiles` updates. */
  datatype Listing = Listing(files: Value, path: string)

  /**
   * `listFiles()` given the `/list` response data (`None` when the request throws): an
   * `error` member clears the files and goes back to the root; more than one key clears
   * the files; otherwise a truthy value under the first key becomes the file list.
   * `Object.keys` of null or undefined throws into the catch, leaving the state alone.
   */
  function ListFiles(response: Option<Value>, state: Listing): (r: Listing)
    ensures r.path == state.path || r.path == "/"
    ensures r.files == state.files || r.files == Arr([])
            || (response.Some? && exists e :: e in Entries(response.value) && Truthy(e.1) && r.files == e.1)
  {
    if response.None? || IsNullish(response.value) then state
    else
      var data := response.value;
      var folder := Entries(data);
      if Truthy(Get(data, "error")) then Listing(Arr([]), "/")
      else if |folder| > 1 then state.(files := Arr([]))
      else if |folder| == 1 && Truthy(folder[0].1) then state.(files := folder[0].1)
      else state
  }

  /** The three classifications of a response, and that an error resets the path while nothing else moves it. */
  /**
   * `Object.keys` of a string counts its UTF-16 code units: a response that is one
   * character above U+FFFF has two keys, so the file list is cleared.
   */
  lemma SupplementaryStringClearsFiles(c: char, state: Listing)
    requires c as int >= 0x1_0000
    ensures ListFiles(Some(Str([c])), state) == state.(files := Arr([]))
  {
    assert [c][..0] == [];
    assert Utf16([c]) == Units(c);
  }

  /** A response that is one character of the basic plane has one key, and the list becomes that string. */
  lemma BasicPlaneStringBecomesFiles(c: char, state: Listing)
    requires c as int < 0x1_0000
    ensures ListFiles(Some(Str([c])), state).files == Str([c])
  {
    assert [c][..0] == [];
    assert Utf16([c]) == Units(c);
  }

  lemma ListFilesCases(data: Value, state: Listing)
    requires !IsNullish(data)
    ensures Truthy(Get(data, "error")) ==> ListFiles(Some(data), state) == Listing(Arr([]), "/")
    ensures !Truthy(Get(data, "error")) && |Entries(data)| > 1 ==> ListFiles(Some(data), state) == state.(files := Arr([]))
    ensures (!Truthy(Get(data, "error")) && |Entries(data)| == 1 && Truthy(Entries(data)[0].1))
            ==> ListFiles(Some(data), state).files == Entries(data)[0].1
    ensures !Truthy(Get(data, "error")) ==> ListFiles(Some(data), state).path == state.path
  {
  }

  // ---------------------------------------------------------------- upload

  // `chunkSize` is 1048576 bytes (1 MiB); it is written as a literal below so that the
  // products and quotients it appears in stay linear for the verifier.

  /** `Math.ceil(size / chunkSize)`. */
  function ChunkCount(size: nat): (n: nat)
    ensures n * 1048576 >= size && (n == 0 || (n - 1) * 1048576 < size)
  {
    (size + 1048576 - 1) / 1048576
  }

  function Min(a: int, b: int): int {
    if a < b then a else b
  }

  /** The byte range `[position, position + length)` the k-th iteration reads. */
  function ChunkBytes(file: seq<byte>, k: nat): (c: seq<byte>)
    requires k < ChunkCount(|file|)
    ensures 0 < |c| <= 1048576
  {
    file[k * 1048576..Min((k + 1) * 1048576, |file|)]
  }

  /** The chunks the first `n` iterations read, as the base64 text `readAsStringAsync` returns. */
  function ChunksRead(file: seq<byte>, n: nat): (r: seq<string>)
    requires n <= ChunkCount(|file|)
    ensures |r| == n
  {
    seq(n, k requires 0 <= k < n => Base64.Encode(ChunkBytes(file, k)))
  }

  /** A multipart POST to `/upload`: its form parameters and the file it carries. */
  datatype UploadRequest = UploadRequest(filename: string, chunk: string, totalChunks: string, body: seq<byte>)

  /** The k-th request as written: the parameters name chunk k, but the body is the whole selected file. */
  function SentRequest(filename: string, file: seq<byte>, k: nat): UploadRequest {
    UploadRequest(filename, NatToString(k), NatToString(ChunkCount(|file|)), file)
  }

  /** The k-th request as evidently intended: the body is the k-th chunk. */
  function IntendedRequest(filename: string, file: seq<byte>, k: nat): UploadRequest
    requires k < ChunkCount(|file|)
  {
    UploadRequest(filename, NatToString(k), NatToString(ChunkCount(|file|)), ChunkBytes(file, k))
  }

  function SentRequests(filename: string, file: seq<byte>, n: nat): (r: seq<UploadRequest>)
    ensures |r| == n
  {
    seq(n, k requires 0 <= k < n => SentRequest(filename, file, k))
  }

  function Bodies(requests: seq<UploadRequest>): (r: seq<seq<byte>>)
    ensures |r| == |requests| && forall k :: 0 <= k < |r| ==> r[k] == requests[k].body
  {
    seq(|requests|, k requires 0 <= k < |requests| => requests[k].body)
  }

  function IntendedRequests(filename: string, file: seq<byte>): (r: seq<UploadRequest>)
    ensures |r| == ChunkCount(|file|)
  {
    seq(ChunkCount(|file|), k requires 0 <= k < ChunkCount(|file|) => IntendedRequest(filename, file, k))
  }

  /** One more iteration adds the next chunk read and the next request. */
  lemma NextChunk(filename: string, file: seq<byte>, n: nat)
    requires n < ChunkCount(|file|)
    ensures ChunksRead(file, n + 1) == ChunksRead(file, n) + [Base64.Encode(ChunkBytes(file, n))]
    ensures SentRequests(filename, file, n + 1) == SentRequests(filename, file, n) + [SentRequest(filename, file, n)]
  {
    NextRead(file, n);
    NextSent(filename, file, n);
  }

  lemma NextRead(file: seq<byte>, n: nat)
    requires n < ChunkCount(|file|)
    ensures ChunksRead(file, n + 1) == ChunksRead(file, n) + [Base64.Encode(ChunkBytes(file, n))]
  {
  }

  lemma NextSent(filename: string, file: seq<byte>, n: nat)
    ensures SentRequests(filename, file, n + 1) == SentRequests(filename, file, n) + [SentRequest(filename, file, n)]
  {
  }

  /** The loop's position arithmetic: while bytes remain, the position is `n * chunkSize` and chunk `n` exists. */
  lemma Position(size: nat, n: nat)
    requires Min(n * 1048576, size) < size
    ensures n * 1048576 < size && n < ChunkCount(size)
    ensures Min(n * 1048576 + 1048576, size) == Min((n + 1) * 1048576, size)
  {
  }

  /** The slice the loop reads at position `n * chunkSize` is chunk `n`. */
  lemma SliceIsChunk(file: seq<byte>, n: nat)
    requires Min(n * 1048576, |file|) < |file|
    ensures n < ChunkCount(|file|)
    ensures file[n * 1048576..Min(n * 1048576 + 1048576, |file|)] == ChunkBytes(file, n)
  {
    Position(|file|, n);
  }

  /** Once the position reaches the size, every chunk has been sent. */
  lemma LastPosition(size: nat, n: nat)
    requires n <= ChunkCount(size) && Min(n * 1048576, size) == size
    ensures n == ChunkCount(size)
  {
  }

  predicate Accepted(status: int) {
    200 <= status < 300
  }

  datatype UploadOutcome =
    | NoSelection          // no file picked: alert, nothing sent
    | Refused              // missing or empty file: thrown before the loop
    | Failed(chunk: nat)   // a response outside [200, 300): thrown, later chunks not sent
    | Done

  /**
   * The loop of `uploadSelectedFile()` over a non-empty file: read chunk after chunk as
   * base64 and post a request per chunk until the whole size is covered, stopping at the
   * first status outside [200, 300). Returns the chunk that failed, if any, the chunks
   * read and the requests sent, in order.
   */
  method UploadChunks(filename: string, file: seq<byte>, status: nat -> int)
    returns (failed: Option<nat>, read: seq<string>, sent: seq<UploadRequest>)
    requires |file| > 0
    ensures |sent| <= ChunkCount(|file|)
    ensures read == ChunksRead(file, |sent|) && sent == SentRequests(filename, file, |sent|)
    ensures failed.None? ==> |sent| == ChunkCount(|file|) && forall k :: 0 <= k < |sent| ==> Accepted(status(k))
    ensures failed.Some? ==>
              && failed.value < ChunkCount(|file|) && |sent| == failed.value + 1
              && !Accepted(status(failed.value))
              && forall k :: 0 <= k < failed.value ==> Accepted(status(k))
  {
    read, sent := [], [];
    var size := |file|;
    var bytesUploaded := 0;
    var chunkNumber := 0;
    while bytesUploaded < size
      invariant chunkNumber <= ChunkCount(size)
      invariant bytesUploaded == Min(chunkNumber * 1048576, size)
      invariant read == ChunksRead(file, chunkNumber)
      invariant sent == SentRequests(filename, file, chunkNumber)
      invariant forall k :: 0 <= k < chunkNumber ==> Accepted(status(k))
      decreases size - bytesUploaded
    {
      Position(size, chunkNumber);
      SliceIsChunk(file, chunkNumber);
      NextChunk(filename, file, chunkNumber);
      var end := Min(bytesUploaded + 1048576, size);
      var bytesRead := file[bytesUploaded..end];
      assert bytesRead == ChunkBytes(file, chunkNumber);
      var chunkContent := Base64.Encode(bytesRead);
      var request := UploadRequest(filename, NatToString(chunkNumber), NatToString(ChunkCount(size)), file);
      read := read + [chunkContent];
      sent := sent + [request];
      assert read == ChunksRead(file, chunkNumber + 1);
      assert sent == SentRequests(filename, file, chunkNumber + 1);
      if !Accepted(status(chunkNumber)) {
        return Some(chunkNumber), read, sent;
      }
      bytesUploaded := bytesUploaded + (end - bytesUploaded);
      chunkNumber := chunkNumber + 1;
    }
    LastPosition(size, chunkNumber);
    failed := None;
  }

  /**
   * `uploadSelectedFile()`. The picked file is `uri`/`name` (`None` or empty when not
   * picked), `fileExists` and `|file|` stand for `getInfoAsync`, and `status(k)` is the
   * HTTP status the box answers to the k-th request. Returns the outcome, the base64
   * chunks read, and the requests sent, in order.
   */
  method UploadSelectedFile(uri: Option<string>, name: Option<string>, current: string, fileExists: bool,
                            file: seq<byte>, status: nat -> int)
    returns (outcome: UploadOutcome, read: seq<string>, sent: seq<UploadRequest>)
    ensures (uri.None? || uri.value == "" || name.None? || name.value == "") <==> outcome == NoSelection
    ensures outcome == Refused <==> !outcome.NoSelection? && (!fileExists || |file| == 0)
    ensures outcome.NoSelection? || outcome.Refused? ==> read == [] && sent == []
    ensures outcome == Done ==>
              && |sent| == ChunkCount(|file|)
              && read == ChunksRead(file, |sent|)
              && sent == SentRequests(DirPrefix(current) + name.value, file, |sent|)
              && forall k :: 0 <= k < |sent| ==> Accepted(status(k))
    ensures outcome.Failed? ==>
              && outcome.chunk < ChunkCount(|file|) && |sent| == outcome.chunk + 1
              && read == ChunksRead(file, |sent|)
              && sent == SentRequests(DirPrefix(current) + name.value, file, |sent|)
              && !Accepted(status(outcome.chunk))
              && forall k :: 0 <= k < outcome.chunk ==> Accepted(status(k))
  {
    if uri.None? || uri.value == "" || name.None? || name.value == "" {
      return NoSelection, [], [];
    }
    var path := DirPrefix(current);
    if !fileExists || |file| == 0 {
      return Refused, [], [];
    }
    var failed;
    failed, read, sent := UploadChunks(path + name.value, file, status);
    outcome := if failed.Some? then Failed(failed.value) else Done;
  }

  /**
   * The chunks read cover the file exactly: decoding and joining the first `n` of them
   * gives the file's first `min(n * chunkSize, size)` bytes.
   */
  lemma {:induction false} ChunksCoverPrefix(file: seq<byte>, n: nat)
    requires n <= ChunkCount(|file|)
    ensures Concat(seq(n, k requires 0 <= k < n => ChunkBytes(file, k))) == file[..Min(n * 1048576, |file|)]
  {
    var chunks := seq(n, k requires 0 <= k < n => ChunkBytes(file, k));
    if n > 0 {
      var init := seq(n - 1, k requires 0 <= k < n - 1 => ChunkBytes(file, k));
      assert chunks[..n - 1] == init;
      ChunksCoverPrefix(file, n - 1);
      assert file[..Min(n * 1048576, |file|)]
          == file[..Min((n - 1) * 1048576, |file|)] + ChunkBytes(file, n - 1);
    }
  }

  /** Corrected upload: the intended request bodies, joined in chunk order, are exactly the file. */
  lemma IntendedBodiesRebuildFile(filename: string, file: seq<byte>)
    ensures Concat(Bodies(IntendedRequests(filename, file))) == file
  {
    var n := ChunkCount(|file|);
    ChunksCoverPrefix(file, n);
    assert Bodies(IntendedRequests(filename, file)) == seq(n, k requires 0 <= k < n => ChunkBytes(file, k));
  }

  /** What the loop reads is the intended payload: decoding every chunk read and joining them gives the file. */
  lemma ReadChunksRebuildFile(file: seq<byte>)
    ensures var n := ChunkCount(|file|);
            Concat(seq(n, k requires 0 <= k < n => Base64.Decode(ChunksRead(file, n)[k]))) == file
  {
    var n := ChunkCount(|file|);
    forall k | 0 <= k < n
      ensures Base64.Decode(ChunksRead(file, n)[k]) == ChunkBytes(file, k)
    {
      Base64.DecodeEncode(ChunkBytes(file, k));
    }
    assert seq(n, k requires 0 <= k < n => Base64.Decode(ChunksRead(file, n)[k]))
        == seq(n, k requires 0 <= k < n => ChunkBytes(file, k));
    ChunksCoverPrefix(file, n);
  }

  /**
   * As written, the box receives the whole file once per chunk: for any file larger than
   * one chunk, the request bodies joined in order are longer than the file.
   */
  lemma {:induction false} SentBodiesRepeatFile(filename: string, file: seq<byte>, n: nat)
    ensures |Concat(Bodies(SentRequests(filename, file, n)))| == n * |file|
    ensures |file| > 1048576 && n == ChunkCount(|file|) ==> Concat(Bodies(SentRequests(filename, file, n))) != file
  {
    var bodies := Bodies(SentRequests(filename, file, n));
    if n > 0 {
      assert bodies[..n - 1] == Bodies(SentRequests(filename, file, n - 1));
      SentBodiesRepeatFile(filename, file, n - 1);
      assert |Concat(bodies)| == (n - 1) * |file| + |file|;
    }
    if |file| > 1048576 && n == ChunkCount(|file|) {
      assert n >= 2;
      assert n * |file| >= 2 * |file|;
    }
  }
}
