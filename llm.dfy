/** `ollama_generate` of `src/llm.py`: the text-generation backend answers a
    streaming request with newline-delimited JSON records, each optionally
    carrying a `response` fragment and a `done` flag. The request itself
    (URL, timeouts, the JSON body) is not modelled; the reply is a given
    status code and a given sequence of lines, already split and parsed. */
module Llm {
  import opened Wrappers
  import opened PyStr

  /** One line of the stream as `json.loads` sees it. */
  datatype StreamLine =
    | Blank                                            // the empty line, skipped
    | Malformed                                        // not valid JSON: `json.loads` raises
    | Record(response: Option<string>, done: bool)     // an object; `done` is `obj.get("done")` taken as a truth value

  /** What the backend sends back. */
  datatype HttpResponse = HttpResponse(status: int, lines: seq<StreamLine>)

  /** Why `ollama_generate` raises. */
  datatype GenerateError =
    | HttpError(status: int)   // `raise_for_status()`
    | StreamParseError         // a non-blank line that is not JSON

  /** `raise_for_status()` raises for client and server errors. */
  predicate RaisesForStatus(status: int) {
    400 <= status < 600
  }

  /** The fragment a record adds to `chunks`: its `response`, if any. */
  function FragmentOf(response: Option<string>): seq<string> {
    if response.Some? then [response.value] else []
  }

  /** The `chunks` the loop of `ollama_generate` collects from `lines`, or the
      parse failure that stops it. */
  function Consume(lines: seq<StreamLine>): (r: Result<seq<string>, GenerateError>)
    ensures r.Err? ==> r.error == StreamParseError
    decreases |lines|
  {
    if lines == [] then Ok([])
    else
      match lines[0]
      case Blank => Consume(lines[1..])
      case Malformed => Err(StreamParseError)
      case Record(response, done) =>
        if done then Ok(FragmentOf(response))
        else Prepend(FragmentOf(response), Consume(lines[1..]))
  }

  /** The text `ollama_generate` returns for a reply, or the exception it
      raises. */
  function Generate(reply: HttpResponse): (r: Result<string, GenerateError>)
    ensures r.Err? && r.error.HttpError? <==> RaisesForStatus(reply.status)
    ensures r.Err? && r.error.HttpError? ==> r.error.status == reply.status
    ensures !RaisesForStatus(reply.status) ==> (r.Ok? <==> Consume(reply.lines).Ok?)
    ensures r.Ok? ==> r.value == Strip(Concat(Consume(reply.lines).value))
  {
    if RaisesForStatus(reply.status) then Err(HttpError(reply.status))
    else
      var chunks :- Consume(reply.lines);
      Ok(Strip(Concat(chunks)))
  }

  /** `ollama_generate` as the source runs it: a loop over the lines that
      skips blank ones, appends each `response` and leaves at the first
      `done`; the chunks are then joined and stripped. */
  method OllamaGenerate(reply: HttpResponse) returns (r: Result<string, GenerateError>)
    ensures r == Generate(reply)
  {
    if RaisesForStatus(reply.status) {
      return Err(HttpError(reply.status));
    }
    var lines := reply.lines;
    var chunks: seq<string> := [];
    var i := 0;
    PrependNothing(Consume(lines));
    while i < |lines|
      invariant 0 <= i <= |lines|
      invariant Consume(lines) == Prepend(chunks, Consume(lines[i..]))
    {
      var line := lines[i];
      assert lines[i..][0] == line && lines[i..][1..] == lines[i + 1..];
      if line.Blank? {
        i := i + 1;
        continue;
      }
      if line.Malformed? {
        return Err(StreamParseError);
      }
      PrependTwice(chunks, FragmentOf(line.response), Consume(lines[i + 1..]));
      if line.response.Some? {
        chunks := chunks + [line.response.value];
      } else {
        assert chunks + [] == chunks;
      }
      if line.done {
        break;
      }
      i := i + 1;
    }
    assert Consume(lines) == Ok(chunks) by {
      assert chunks + [] == chunks;
    }
    return Ok(Strip(Concat(chunks)));
  }

  // ---------------------------------------------------------------------
  // A reference description: the lines read, and the fragments among them

  predicate IsDone(line: StreamLine) {
    line.Record? && line.done
  }

  predicate HasDone(lines: seq<StreamLine>) {
    exists k :: 0 <= k < |lines| && IsDone(lines[k])
  }

  /** The number of lines the loop reads: up to and including the first
      `done` record, or all of them. */
  function LinesRead(lines: seq<StreamLine>): (n: nat)
    ensures n <= |lines|
    ensures HasDone(lines) <==> 0 < n && IsDone(lines[n - 1])
    ensures forall k :: 0 <= k < n - 1 ==> !IsDone(lines[k])
    ensures !HasDone(lines) ==> n == |lines|
    decreases |lines|
  {
    if lines == [] then 0
    else if IsDone(lines[0]) then 1
    else
      var n := 1 + LinesRead(lines[1..]);
      assert forall k :: 1 <= k < |lines| ==> lines[k] == lines[1..][k - 1];
      n
  }

  /** The `response` fragments of `lines`, in order. */
  function Fragments(lines: seq<StreamLine>): (r: seq<string>)
    ensures |r| <= |lines|
    decreases |lines|
  {
    if lines == [] then []
    else (if lines[0].Record? then FragmentOf(lines[0].response) else []) + Fragments(lines[1..])
  }

  predicate NoMalformed(lines: seq<StreamLine>) {
    forall k :: 0 <= k < |lines| ==> !lines[k].Malformed?
  }

  /** The loop fails exactly when a malformed line comes before the first
      `done`; otherwise it collects the fragments of every line it reads. */
  lemma {:induction false} ConsumeMeaning(lines: seq<StreamLine>)
    ensures var read := lines[..LinesRead(lines)];
      && (Consume(lines).Ok? <==> NoMalformed(read))
      && (Consume(lines).Ok? ==> Consume(lines).value == Fragments(read))
    decreases |lines|
  {
    if lines != [] {
      var read := lines[..LinesRead(lines)];
      assert read[0] == lines[0];
      var tail := lines[1..];
      if IsDone(lines[0]) {
        assert read == [lines[0]];
        assert Fragments(read) == FragmentOf(lines[0].response) + Fragments([]) by {
          assert read[1..] == [];
        }
      } else {
        ConsumeMeaning(tail);
        assert read[1..] == tail[..LinesRead(tail)];
        assert NoMalformed(read) <==> !lines[0].Malformed? && NoMalformed(read[1..]) by {
          assert forall k :: 1 <= k < |read| ==> read[k] == read[1..][k - 1];
        }
      }
    }
  }

  /** How the loop treats two runs of lines: the second run is not read when
      the first holds a `done`, and otherwise continues the first. */
  lemma {:induction false} ConsumeAppend(xs: seq<StreamLine>, ys: seq<StreamLine>)
    ensures Consume(xs + ys) ==
      if HasDone(xs) then Consume(xs)
      else match Consume(xs)
        case Err(e) => Err(e)
        case Ok(c) => Prepend(c, Consume(ys))
    decreases |xs|
  {
    if xs == [] {
      assert xs + ys == ys;
      PrependNothing(Consume(ys));
    } else {
      var zs := xs + ys;
      assert zs[0] == xs[0] && zs[1..] == xs[1..] + ys;
      ConsumeAppend(xs[1..], ys);
      assert HasDone(xs) <==> IsDone(xs[0]) || HasDone(xs[1..]) by {
        assert forall k :: 1 <= k < |xs| ==> xs[k] == xs[1..][k - 1];
      }
      if xs[0].Record? && !xs[0].done {
        match Consume(xs[1..])
        case Err(_) =>
        case Ok(c) =>
          PrependTwice(FragmentOf(xs[0].response), c, Consume(ys));
      }
    }
  }

  /** Blank lines contribute nothing, wherever they appear. */
  lemma BlankLineSkipped(xs: seq<StreamLine>, ys: seq<StreamLine>)
    ensures Consume(xs + [Blank] + ys) == Consume(xs + ys)
  {
    assert xs + [Blank] + ys == xs + ([Blank] + ys);
    ConsumeAppend(xs, [Blank] + ys);
    ConsumeAppend(xs, ys);
    assert ([Blank] + ys)[1..] == ys;
  }

  /** A record with neither `response` nor a true `done` adds nothing and
      does not stop the loop. */
  lemma EmptyRecordSkipped(xs: seq<StreamLine>, ys: seq<StreamLine>)
    ensures Consume(xs + [Record(None, false)] + ys) == Consume(xs + ys)
  {
    var line := Record(None, false);
    assert xs + [line] + ys == xs + ([line] + ys);
    ConsumeAppend(xs, [line] + ys);
    ConsumeAppend(xs, ys);
    assert ([line] + ys)[1..] == ys;
    PrependNothing(Consume(ys));
  }

  /** Nothing after the first `done` record is read: what follows it cannot
      change the result. */
  lemma StopsAtDone(xs: seq<StreamLine>, response: Option<string>, ys: seq<StreamLine>, zs: seq<StreamLine>)
    ensures Consume(xs + [Record(response, true)] + ys) == Consume(xs + [Record(response, true)] + zs)
  {
    var done := xs + [Record(response, true)];
    assert IsDone(done[|xs|]);
    ConsumeAppend(done, ys);
    ConsumeAppend(done, zs);
  }

  /** The `done` record's own fragment is kept: the append comes before the
      check. */
  lemma DoneFragmentKept(xs: seq<StreamLine>, f: string, ys: seq<StreamLine>)
    requires !HasDone(xs)
    ensures Consume(xs + [Record(Some(f), true)] + ys) ==
      match Consume(xs)
      case Err(e) => Err(e)
      case Ok(c) => Ok(c + [f])
  {
    var line := Record(Some(f), true);
    assert xs + [line] + ys == xs + ([line] + ys);
    ConsumeAppend(xs, [line] + ys);
  }

  /** A stream without a `done` record is read to its end, and every fragment
      is kept. */
  lemma AllFragmentsWithoutDone(lines: seq<StreamLine>)
    requires !HasDone(lines) && NoMalformed(lines)
    ensures Consume(lines) == Ok(Fragments(lines))
  {
    ConsumeMeaning(lines);
    assert lines[..|lines|] == lines;
  }

  /** A malformed line read before any `done` aborts the whole call. */
  lemma MalformedLineAborts(xs: seq<StreamLine>, ys: seq<StreamLine>)
    requires !HasDone(xs)
    ensures Consume(xs + [Malformed] + ys) == Err(StreamParseError)
  {
    assert xs + [Malformed] + ys == xs + ([Malformed] + ys);
    ConsumeAppend(xs, [Malformed] + ys);
  }

  /** An error status is reported before any line is looked at. */
  lemma StatusCheckedFirst(status: int, lines1: seq<StreamLine>, lines2: seq<StreamLine>)
    requires RaisesForStatus(status)
    ensures Generate(HttpResponse(status, lines1)) == Generate(HttpResponse(status, lines2)) == Err(HttpError(status))
  {
  }

  /** `{"response":"ab"}`, `{"response":"cd"}`, `{"done":true}` give `"abcd"`,
      whatever the stream holds after them. */
  lemma ThreeRecordExample(status: int, rest: seq<StreamLine>)
    requires 200 <= status < 300
    ensures Generate(HttpResponse(status,
      [Record(Some("ab"), false), Record(Some("cd"), false), Record(None, true)] + rest)) == Ok("abcd")
  {
    var lines := [Record(Some("ab"), false), Record(Some("cd"), false), Record(None, true)] + rest;
    assert lines[1..] == [Record(Some("cd"), false), Record(None, true)] + rest;
    assert lines[1..][1..] == [Record(None, true)] + rest;
    assert Consume(lines[1..][1..]) == Ok([]);
    assert lines[1..][0] == Record(Some("cd"), false);
    assert ["cd"] + [] == ["cd"];
    assert Consume(lines[1..]) == Ok(["cd"]);
    assert lines[0] == Record(Some("ab"), false);
    assert ["ab"] + ["cd"] == ["ab", "cd"];
    assert Consume(lines) == Ok(["ab", "cd"]);
    assert Concat(["ab", "cd"]) == "abcd" by {
      assert ["ab", "cd"][1..] == ["cd"];
    }
    StripUnchanged("abcd");
  }
}
