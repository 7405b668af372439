/** `TestGenerator` (src/generation/test_utils.py): the buffer that turns a
    stream of completion chunks into complete JSON test cases, and the prompt
    the stream is requested with. The stream is a sequence of chunks; whether
    a text parses as JSON (`json.loads` succeeding) is a predicate given as
    input. */
module TestUtils {
  import opened Text
  import opened JsonValue
  import opened Wrappers

  /** The sentinel chunk that ends a stream. */
  const Done: string := "[DONE]"

  /** The generator's state: the JSON items yielded so far, the buffer
      `current_chunk`, how many chunks were pulled from the stream, and
      whether the sentinel was met. */
  datatype Stream = Stream(items: seq<string>, buffer: string, consumed: nat, done: bool)

  /** Everything yielded: the JSON items, then the sentinel if it was met. */
  function Yielded(st: Stream): seq<string> {
    st.items + (if st.done then [Done] else [])
  }

  /** One chunk. On the sentinel, a non-empty buffer that parses is flushed
      and the generator stops; otherwise the chunk is appended to the buffer,
      and a buffer that now parses is yielded and cleared. */
  function Step(st: Stream, chunk: string, isJson: string -> bool): Stream {
    if chunk == Done then
      var flush := if st.buffer != "" && isJson(st.buffer) then [st.buffer] else [];
      Stream(st.items + flush, st.buffer, st.consumed + 1, true)
    else
      var buffer := st.buffer + chunk;
      if isJson(buffer) then Stream(st.items + [buffer], "", st.consumed + 1, false)
      else Stream(st.items, buffer, st.consumed + 1, false)
  }

  /** The state after the first `n` chunks were offered; once the sentinel is
      met, nothing more is pulled. */
  function Feed(chunks: seq<string>, isJson: string -> bool, n: nat): Stream
    requires n <= |chunks|
  {
    if n == 0 then Stream([], "", 0, false)
    else
      var st := Feed(chunks, isJson, n - 1);
      if st.done then st else Step(st, chunks[n - 1], isJson)
  }

  /** The `for chunk in stream_generator` loop of `generate_streaming`:
      what it yields and how many chunks it pulls. */
  method GenerateStreaming(chunks: seq<string>, isJson: string -> bool)
    returns (yielded: seq<string>, consumed: nat)
    ensures yielded == Yielded(Feed(chunks, isJson, |chunks|))
    ensures consumed == Feed(chunks, isJson, |chunks|).consumed
  {
    var currentChunk := "";
    yielded := [];
    consumed := 0;
    while consumed < |chunks|
      invariant consumed <= |chunks|
      invariant Feed(chunks, isJson, consumed) == Stream(yielded, currentChunk, consumed, false)
    {
      var chunk := chunks[consumed];
      consumed := consumed + 1;
      if chunk == Done {
        if currentChunk != "" && isJson(currentChunk) {
          yielded := yielded + [currentChunk];
        }
        yielded := yielded + [Done];
        FeedStops(chunks, isJson, consumed, |chunks|);
        return;
      }
      currentChunk := currentChunk + chunk;
      if isJson(currentChunk) {
        yielded := yielded + [currentChunk];
        currentChunk := "";
      }
    }
  }

  /** Once the sentinel is met the state no longer changes. */
  lemma {:induction false} FeedStops(chunks: seq<string>, isJson: string -> bool, m: nat, n: nat)
    requires m <= n <= |chunks| && Feed(chunks, isJson, m).done
    ensures Feed(chunks, isJson, n) == Feed(chunks, isJson, m)
  {
    if m < n {
      FeedStops(chunks, isJson, m, n - 1);
    }
  }

  /** Every item yielded before the sentinel is a text that parsed, and the
      buffer left over is empty or does not parse (it is cleared after each
      successful parse and was tested each time it grew). So the flush on
      the sentinel never yields anything. */
  lemma {:induction false} FeedInvariant(chunks: seq<string>, isJson: string -> bool, n: nat)
    requires n <= |chunks|
    ensures forall k :: 0 <= k < |Feed(chunks, isJson, n).items| ==> isJson(Feed(chunks, isJson, n).items[k])
    ensures Feed(chunks, isJson, n).buffer == "" || !isJson(Feed(chunks, isJson, n).buffer)
  {
    if n > 0 {
      FeedInvariant(chunks, isJson, n - 1);
    }
  }

  /** The sentinel is yielded exactly when the stream holds one; the loop
      then pulled every chunk up to and including the first sentinel and no
      more, and otherwise pulled every chunk. */
  lemma {:induction false} StopsAtFirstDone(chunks: seq<string>, isJson: string -> bool, n: nat)
    requires n <= |chunks|
    ensures Feed(chunks, isJson, n).done <==> Done in chunks[..n]
    ensures Feed(chunks, isJson, n).done ==>
      var c := Feed(chunks, isJson, n).consumed;
      0 < c <= n && chunks[c - 1] == Done && Done !in chunks[..c - 1]
    ensures !Feed(chunks, isJson, n).done ==> Feed(chunks, isJson, n).consumed == n
  {
    if n > 0 {
      StopsAtFirstDone(chunks, isJson, n - 1);
      assert chunks[..n] == chunks[..n - 1] + [chunks[n - 1]];
      if Feed(chunks, isJson, n - 1).done {
        var c := Feed(chunks, isJson, n - 1).consumed;
        assert chunks[..c - 1] == chunks[..n - 1][..c - 1];
      }
    }
  }

  function Concat(ss: seq<string>): string {
    if |ss| == 0 then "" else Concat(ss[..|ss| - 1]) + ss[|ss| - 1]
  }

  lemma ConcatSnoc(ss: seq<string>, s: string)
    ensures Concat(ss + [s]) == Concat(ss) + s
  {
    assert (ss + [s])[..|ss|] == ss;
  }

  /** The chunks that went into the buffer: those pulled, less the sentinel. */
  function Fed(st: Stream): nat {
    if st.done && st.consumed > 0 then st.consumed - 1 else st.consumed
  }

  /** The sentinel adds no text when the buffer is empty or does not
      parse: it only stops the stream. */
  lemma StepDone(st: Stream, isJson: string -> bool)
    requires st.buffer == "" || !isJson(st.buffer)
    ensures Step(st, Done, isJson) == st.(consumed := st.consumed + 1, done := true)
  {
    assert st.items + [] == st.items;
  }

  /** Any other chunk moves into the items and buffer. */
  lemma StepChunk(st: Stream, chunk: string, isJson: string -> bool)
    requires chunk != Done
    ensures !Step(st, chunk, isJson).done && Step(st, chunk, isJson).consumed == st.consumed + 1
    ensures Concat(Step(st, chunk, isJson).items) + Step(st, chunk, isJson).buffer
      == Concat(st.items) + st.buffer + chunk
  {
    if isJson(st.buffer + chunk) {
      ConcatSnoc(st.items, st.buffer + chunk);
    }
  }

  /** No text is lost or repeated: the yielded JSON items followed by the
      leftover buffer spell out every chunk pulled before the sentinel. */
  lemma {:induction false} NothingLost(chunks: seq<string>, isJson: string -> bool, n: nat)
    requires n <= |chunks|
    ensures Fed(Feed(chunks, isJson, n)) <= n
    ensures Concat(Feed(chunks, isJson, n).items) + Feed(chunks, isJson, n).buffer
      == Concat(chunks[..Fed(Feed(chunks, isJson, n))])
  {
    if n > 0 {
      NothingLost(chunks, isJson, n - 1);
      var st := Feed(chunks, isJson, n - 1);
      StopsAtFirstDone(chunks, isJson, n - 1);
      if !st.done {
        NothingLostStep(chunks, isJson, n);
      }
    }
  }

  lemma NothingLostStep(chunks: seq<string>, isJson: string -> bool, n: nat)
    requires 0 < n <= |chunks|
    requires !Feed(chunks, isJson, n - 1).done && Feed(chunks, isJson, n - 1).consumed == n - 1
    requires Concat(Feed(chunks, isJson, n - 1).items) + Feed(chunks, isJson, n - 1).buffer
      == Concat(chunks[..n - 1])
    ensures Fed(Feed(chunks, isJson, n)) <= n
    ensures Concat(Feed(chunks, isJson, n).items) + Feed(chunks, isJson, n).buffer
      == Concat(chunks[..Fed(Feed(chunks, isJson, n))])
  {
    var st := Feed(chunks, isJson, n - 1);
    assert Feed(chunks, isJson, n) == Step(st, chunks[n - 1], isJson);
    FeedInvariant(chunks, isJson, n - 1);
    StepFed(st, chunks, n, isJson);
  }

  /** Offering chunk `n - 1` to a state that has fed the chunks before it:
      the items and buffer then spell out the chunks fed, the new one
      included unless it is the sentinel. */
  lemma StepFed(st: Stream, chunks: seq<string>, n: nat, isJson: string -> bool)
    requires 0 < n <= |chunks| && !st.done && st.consumed == n - 1
    requires st.buffer == "" || !isJson(st.buffer)
    requires Concat(st.items) + st.buffer == Concat(chunks[..n - 1])
    ensures Fed(Step(st, chunks[n - 1], isJson)) <= n
    ensures Concat(Step(st, chunks[n - 1], isJson).items) + Step(st, chunks[n - 1], isJson).buffer
      == Concat(chunks[..Fed(Step(st, chunks[n - 1], isJson))])
  {
    var chunk := chunks[n - 1];
    if chunk == Done {
      StepDone(st, isJson);
    } else {
      StepChunk(st, chunk, isJson);
      assert chunks[..n - 1] + [chunk] == chunks[..n];
      ConcatSnoc(chunks[..n - 1], chunk);
    }
  }

  /** `endpoint_data.get(key, "")` as formatted into the prompt. */
  function FieldOr(endpointData: seq<(string, Json)>, key: string): (s: string)
    ensures Get(endpointData, key).None? ==> s == ""
    ensures Get(endpointData, key).Some? ==> s == Str(Get(endpointData, key).value)
  {
    match Get(endpointData, key)
    case None => ""
    case Some(v) => Str(v)
  }

  /** The fixed text of `TEST_GENERATION_PROMPT`, between its fields. */
  const Head: string :=
    "Generate API test cases for this endpoint based on the provided traffic patterns.\n"
    + "Return each test case one at a time in valid JSON format.\n\n"
  const Mid: string :=
    "\nFor each test case, return in this exact JSON format:\n{\n"
    + "    \"description\": \"Meaningful description for the Test case\",\n"
    + "    \"category\": [\"functional\"|\"security\"|\"performance\"|\"validation\"],\n"
    + "    \"priority\": \"high\"|\"medium\"|\"low\",\n"
    + "    \"request\": {\n"
    + "        "
  const Between: string := ",\n        "
  const Tail: string :=
    ",\n        \"headers\": {},\n        \"path_params\": {},\n        \"query_params\": {},\n        \"body\": {}\n"
    + "    }\n}\n\n"
    + "Generate realistic test cases based on the sample traffic patterns.\n"
    + "Return one complete test case at a time, ensuring each is valid JSON."

  function EndpointLines(url: string, httpMethod: string): string {
    "Endpoint: " + url + "\nMethod: " + httpMethod + "\n"
  }

  function RequestBlock(completeRequest: string): string {
    "\nComplete request\n" + completeRequest + "\n"
  }

  function MethodField(httpMethod: string): string {
    "\"method\": \"" + httpMethod + "\""
  }

  function UrlField(url: string): string {
    "\"url\": \"" + url + "\""
  }

  /** `TEST_GENERATION_PROMPT.format(url=..., http_method=..., complete_request=...)`,
      as its fixed text and its fields in order. */
  function PromptPieces(url: string, httpMethod: string, completeRequest: string): seq<string> {
    [Head, EndpointLines(url, httpMethod), RequestBlock(completeRequest),
     Mid, MethodField(httpMethod), Between, UrlField(url), Tail]
  }

  /** `_create_prompt`: the endpoint's url and method, `""` when missing, and
      the `str()` of the whole endpoint dict, each in its place in the
      template. */
  function CreatePrompt(endpointData: seq<(string, Json)>): (prompt: string)
    ensures Contains(prompt, EndpointLines(FieldOr(endpointData, "url"), FieldOr(endpointData, "http_method")))
    ensures Contains(prompt, UrlField(FieldOr(endpointData, "url")))
    ensures Contains(prompt, MethodField(FieldOr(endpointData, "http_method")))
    ensures Contains(prompt, RequestBlock(Str(Object(endpointData))))
  {
    var url, m, req := FieldOr(endpointData, "url"), FieldOr(endpointData, "http_method"),
      Str(Object(endpointData));
    var pieces := PromptPieces(url, m, req);
    ContainsPiece(pieces, 1);
    ContainsPiece(pieces, 2);
    ContainsPiece(pieces, 4);
    ContainsPiece(pieces, 6);
    Concat(pieces)
  }

  /** Every piece of a concatenation occurs in it. */
  lemma {:induction false} ContainsPiece(pieces: seq<string>, k: nat)
    requires k < |pieces|
    ensures Contains(Concat(pieces), pieces[k])
  {
    var init, last := pieces[..|pieces| - 1], pieces[|pieces| - 1];
    assert Concat(pieces) == Concat(init) + last;
    if k == |pieces| - 1 {
      ContainsConcat(Concat(init), last, "");
      assert Concat(init) + last + "" == Concat(pieces);
    } else {
      ContainsPiece(init, k);
      assert init[k] == pieces[k];
      ContainsExtend(Concat(init), last, pieces[k]);
    }
  }

  /** With neither `url` nor `http_method` in the endpoint dict, both fields
      of the prompt are empty. */
  lemma MissingFieldsEmpty(endpointData: seq<(string, Json)>)
    requires Get(endpointData, "url").None? && Get(endpointData, "http_method").None?
    ensures Contains(CreatePrompt(endpointData), EndpointLines("", ""))
    ensures Contains(CreatePrompt(endpointData), UrlField(""))
    ensures Contains(CreatePrompt(endpointData), MethodField(""))
  {
  }
}
