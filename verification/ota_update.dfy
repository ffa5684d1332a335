/** The firmware upload transaction of `POST /ota` (`ota_post_handler`):
    pick the next update partition, `esp_ota_begin`, a receive/write loop
    over the request body in pieces of at most 256 bytes that retries on a
    receive timeout, then `esp_ota_end` and `esp_ota_set_boot_partition`.
    Any failure aborts the handle (when one was obtained) and answers 500.

    The OTA flash API and the HTTP receive are the environment: a script of
    their results. */
module OtaUpdate {
  import opened Common

  /** `char buf[256]`. */
  const RecvBufferSize := 256
  /** `vTaskDelay(2000 / portTICK_RATE_MS)` before `esp_restart`. */
  const RestartDelayMs := 2000

  /** `int remaining = req->content_len`: the 32-bit `size_t` read as a
      signed `int`. */
  function AsInt32(n: SizeT): (r: int)
    ensures n < 0x8000_0000 ==> r == n
    ensures n >= 0x8000_0000 ==> r < 0
  {
    if n < 0x8000_0000 then n else n - 0x1_0000_0000
  }

  /** One scripted answer of `httpd_req_recv`: bytes (and the result
      `esp_ota_write` then gives for them), a timeout, or any other socket
      error. An empty `Chunk` is the 0 return of a closed connection. */
  datatype RecvStep = Chunk(bytes: seq<byte>, writeResult: EspErr) | Timeout | SocketError

  /** Everything the handler learns from outside. A script that runs out is
      read as a socket error. `esp_ota_begin` sets the non-zero handle exactly
      when it succeeds, so "the handle is non-zero" is "begin succeeded". */
  datatype Env = Env(
    hasPartition: bool,
    beginResult: EspErr,
    steps: seq<RecvStep>,
    endResult: EspErr,
    setBootResult: EspErr)

  datatype Failure = NoPartition | BeginFailed | ReceiveFailed | WriteFailed | EndFailed | SetBootFailed

  /** One call of `httpd_req_recv`: how many bytes had been written before
      it, the `remaining` it was made with, and the size it asked for. */
  datatype RecvCall = RecvCall(writtenBefore: nat, remaining: int, size: int)

  /** How the receive loop ended, every byte it passed to `esp_ota_write`
      and every receive it made. */
  datatype LoopEnd = LoopEnd(failure: Option<Failure>, written: seq<byte>, requests: seq<RecvCall>)

  /** Every receive of an upload announcing `announced` bytes was made while
      bytes were still due, with `remaining` the announced length less the
      bytes written so far, and asked for `MIN(remaining, sizeof(buf))`. */
  predicate RequestsFollow(requests: seq<RecvCall>, announced: int) {
    forall k :: 0 <= k < |requests| ==>
      && requests[k].remaining == announced - requests[k].writtenBefore > 0
      && requests[k].size == Min(requests[k].remaining, RecvBufferSize)
  }

  /** The receive loop `while (remaining > 0)`, reading the script from its
      head, with `written` and `requests` so far. */
  function RecvLoop(steps: seq<RecvStep>, remaining: int, written: seq<byte>, requests: seq<RecvCall>): (r: LoopEnd)
    requires remaining >= 0 || written == []
    ensures |written| <= |r.written| && r.written[..|written|] == written
    ensures |requests| <= |r.requests| && r.requests[..|requests|] == requests
    ensures |r.written| <= |written| + (if remaining > 0 then remaining else 0)
    ensures r.failure.None? ==> |r.written| == |written| + (if remaining > 0 then remaining else 0)
    ensures r.failure.None? || r.failure == Some(ReceiveFailed) || r.failure == Some(WriteFailed)
    decreases |steps|
  {
    if remaining <= 0 then LoopEnd(None, written, requests)
    else
      var want := Min(remaining, RecvBufferSize);
      var asked := requests + [RecvCall(|written|, remaining, want)];
      if |steps| == 0 then LoopEnd(Some(ReceiveFailed), written, asked)
      else
        match steps[0]
        case Timeout => RecvLoop(steps[1..], remaining, written, asked)
        case SocketError => LoopEnd(Some(ReceiveFailed), written, asked)
        case Chunk(bytes, writeResult) =>
          var got := Min(|bytes|, want);
          if got <= 0 then LoopEnd(Some(ReceiveFailed), written, asked)
          else if writeResult != EspOk then LoopEnd(Some(WriteFailed), written + bytes[..got], asked)
          else
            var r := RecvLoop(steps[1..], remaining - got, written + bytes[..got], asked);
            assert (written + bytes[..got]) [..|written|] == written;
            r
  }

  /** Every receive the loop adds is made while bytes are due, with the
      `remaining` that matches the bytes written before it, and asks for
      `MIN(remaining, sizeof(buf))`. */
  lemma {:induction false} RecvLoopRequests(steps: seq<RecvStep>, remaining: int, written: seq<byte>, requests: seq<RecvCall>)
    requires remaining >= 0 || written == []
    requires RequestsFollow(requests, remaining + |written|)
    ensures RequestsFollow(RecvLoop(steps, remaining, written, requests).requests, remaining + |written|)
    decreases |steps|
  {
    if remaining > 0 {
      var want := Min(remaining, RecvBufferSize);
      var asked := requests + [RecvCall(|written|, remaining, want)];
      assert RequestsFollow(asked, remaining + |written|) by {
        forall k | 0 <= k < |asked|
          ensures asked[k].remaining == remaining + |written| - asked[k].writtenBefore > 0
          ensures asked[k].size == Min(asked[k].remaining, RecvBufferSize)
        {
          if k < |requests| {
            assert asked[k] == requests[k];
          }
        }
      }
      if |steps| > 0 && steps[0].Chunk? {
        var got := Min(|steps[0].bytes|, want);
        if got > 0 && steps[0].writeResult == EspOk {
          var w := written + steps[0].bytes[..got];
          assert RecvLoop(steps, remaining, written, requests) == RecvLoop(steps[1..], remaining - got, w, asked);
          RecvLoopRequests(steps[1..], remaining - got, w, asked);
        }
      } else if |steps| > 0 && steps[0].Timeout? {
        assert RecvLoop(steps, remaining, written, requests) == RecvLoop(steps[1..], remaining, written, asked);
        RecvLoopRequests(steps[1..], remaining, written, asked);
      }
    }
  }

  /** What the handler did: the status it sent, its return code, the first
      failure, whether it called `esp_ota_abort`, `esp_ota_end` and
      `esp_ota_set_boot_partition`, the bytes handed to `esp_ota_write`, the
      sizes asked of `httpd_req_recv`, and the delay before the restart it
      scheduled. */
  datatype Report = Report(
    status: int,
    result: EspErr,
    failure: Option<Failure>,
    aborted: bool,
    endCalled: bool,
    setBootCalled: bool,
    written: seq<byte>,
    requests: seq<RecvCall>,
    restartAfterMs: Option<nat>)

  function Failed(failure: Failure, aborted: bool, endCalled: bool, setBootCalled: bool, loop: LoopEnd): Report {
    Report(Http500, EspFail, Some(failure), aborted, endCalled, setBootCalled, loop.written, loop.requests, None)
  }

  /** `ota_post_handler` for a request announcing `contentLen` body bytes. */
  function OtaPost(contentLen: SizeT, env: Env): (r: Report)
    ensures r.status == Http200 <==> r.failure == None
    ensures r.failure == None <==>
              && env.hasPartition
              && env.beginResult == EspOk
              && RecvLoop(env.steps, AsInt32(contentLen), [], []).failure == None
              && env.endResult == EspOk
              && env.setBootResult == EspOk
    ensures r.status == Http200 ==> r.result == EspOk && !r.aborted && r.restartAfterMs == Some(RestartDelayMs)
    ensures r.status != Http200 ==> r.status == Http500 && r.result == EspFail && r.restartAfterMs == None
    ensures r.status != Http200 ==> (r.aborted <==> env.hasPartition && env.beginResult == EspOk)
    ensures r.setBootCalled ==> r.endCalled && env.endResult == EspOk
    ensures r.endCalled ==> |r.written| == (if AsInt32(contentLen) > 0 then AsInt32(contentLen) else 0)
    ensures r.endCalled <==>
              && env.hasPartition
              && env.beginResult == EspOk
              && RecvLoop(env.steps, AsInt32(contentLen), [], []).failure == None
    ensures r.setBootCalled <==> r.endCalled && env.endResult == EspOk
    ensures RequestsFollow(r.requests, AsInt32(contentLen))
  {
    var remaining := AsInt32(contentLen);
    var none := LoopEnd(None, [], []);
    if !env.hasPartition then Failed(NoPartition, false, false, false, none)
    else if env.beginResult != EspOk then Failed(BeginFailed, false, false, false, none)
    else
      var loop := RecvLoop(env.steps, remaining, [], []);
      RecvLoopRequests(env.steps, remaining, [], []);
      if loop.failure.Some? then Failed(loop.failure.value, true, false, false, loop)
      else if env.endResult != EspOk then Failed(EndFailed, true, true, false, loop)
      else if env.setBootResult != EspOk then Failed(SetBootFailed, true, true, true, loop)
      else Report(Http200, EspOk, None, false, true, true, loop.written, loop.requests, Some(RestartDelayMs))
  }

  /** `ota_post_handler` as a loop over the scripted environment. */
  method OtaPostHandler(contentLen: SizeT, env: Env) returns (r: Report)
    ensures r == OtaPost(contentLen, env)
    ensures r.endCalled ==> |r.written| == (if AsInt32(contentLen) > 0 then AsInt32(contentLen) else 0)
    ensures RequestsFollow(r.requests, AsInt32(contentLen))
  {
    var remaining := AsInt32(contentLen);
    if !env.hasPartition {
      return Failed(NoPartition, false, false, false, LoopEnd(None, [], []));
    }
    if env.beginResult != EspOk {
      return Failed(BeginFailed, false, false, false, LoopEnd(None, [], []));
    }
    ghost var total := RecvLoop(env.steps, remaining, [], []);
    var written: seq<byte> := [];
    var requests: seq<RecvCall> := [];
    var i := 0;
    while remaining > 0
      invariant 0 <= i <= |env.steps|
      invariant remaining == AsInt32(contentLen) - |written|
      invariant remaining >= 0 || written == []
      invariant RecvLoop(env.steps[i..], remaining, written, requests) == total
      invariant RequestsFollow(requests, AsInt32(contentLen))
      decreases |env.steps| - i
    {
      var want := Min(remaining, RecvBufferSize);
      requests := requests + [RecvCall(|written|, remaining, want)];
      if i == |env.steps| {
        return Failed(ReceiveFailed, true, false, false, LoopEnd(None, written, requests));
      }
      var step := env.steps[i];
      assert env.steps[i..][1..] == env.steps[i + 1..];
      i := i + 1;
      match step {
        case Timeout =>
        case SocketError =>
          return Failed(ReceiveFailed, true, false, false, LoopEnd(None, written, requests));
        case Chunk(bytes, writeResult) =>
          var got := Min(|bytes|, want);
          if got <= 0 {
            return Failed(ReceiveFailed, true, false, false, LoopEnd(None, written, requests));
          }
          remaining := remaining - got;
          written := written + bytes[..got];
          if writeResult != EspOk {
            return Failed(WriteFailed, true, false, false, LoopEnd(None, written, requests));
          }
      }
    }
    var loop := LoopEnd(None, written, requests);
    if env.endResult != EspOk {
      return Failed(EndFailed, true, true, false, loop);
    }
    if env.setBootResult != EspOk {
      return Failed(SetBootFailed, true, true, true, loop);
    }
    return Report(Http200, EspOk, None, false, true, true, written, requests, Some(RestartDelayMs));
  }

  /** The script with its timeouts removed. */
  function WithoutTimeouts(steps: seq<RecvStep>): (r: seq<RecvStep>)
    ensures |r| <= |steps|
    ensures forall k :: 0 <= k < |r| ==> !r[k].Timeout?
  {
    if |steps| == 0 then []
    else if steps[0].Timeout? then WithoutTimeouts(steps[1..])
    else [steps[0]] + WithoutTimeouts(steps[1..])
  }

  /** A receive timeout is retried in place: with the timeouts taken out of
      the script, the loop ends the same way having written the same bytes. */
  lemma {:induction false} TimeoutsAreRetried(steps: seq<RecvStep>, remaining: int, written: seq<byte>, requests: seq<RecvCall>, requests': seq<RecvCall>)
    requires remaining >= 0 || written == []
    ensures RecvLoop(steps, remaining, written, requests).failure == RecvLoop(WithoutTimeouts(steps), remaining, written, requests').failure
    ensures RecvLoop(steps, remaining, written, requests).written == RecvLoop(WithoutTimeouts(steps), remaining, written, requests').written
    decreases |steps|, 1
  {
    if remaining > 0 && |steps| > 0 {
      if steps[0].Timeout? {
        var call := RecvCall(|written|, remaining, Min(remaining, RecvBufferSize));
        assert RecvLoop(steps, remaining, written, requests) == RecvLoop(steps[1..], remaining, written, requests + [call]);
        assert WithoutTimeouts(steps) == WithoutTimeouts(steps[1..]);
        TimeoutsAreRetried(steps[1..], remaining, written, requests + [call], requests');
      } else {
        FirstStepKept(steps, remaining, written, requests, requests');
      }
    }
  }

  /** The case of `TimeoutsAreRetried` whose first step is not a timeout:
      both scripts start with that step. */
  lemma {:induction false} FirstStepKept(steps: seq<RecvStep>, remaining: int, written: seq<byte>, requests: seq<RecvCall>, requests': seq<RecvCall>)
    requires remaining > 0 && |steps| > 0 && !steps[0].Timeout?
    ensures RecvLoop(steps, remaining, written, requests).failure == RecvLoop(WithoutTimeouts(steps), remaining, written, requests').failure
    ensures RecvLoop(steps, remaining, written, requests).written == RecvLoop(WithoutTimeouts(steps), remaining, written, requests').written
    decreases |steps|, 0
  {
    var want := Min(remaining, RecvBufferSize);
    var rest := WithoutTimeouts(steps[1..]);
    var f := WithoutTimeouts(steps);
    assert f == [steps[0]] + rest;
    assert f[0] == steps[0] && f[1..] == rest;
    if steps[0].Chunk? {
      var got := Min(|steps[0].bytes|, want);
      if got > 0 && steps[0].writeResult == EspOk {
        var w := written + steps[0].bytes[..got];
        var call := RecvCall(|written|, remaining, want);
        assert RecvLoop(steps, remaining, written, requests) == RecvLoop(steps[1..], remaining - got, w, requests + [call]);
        assert RecvLoop(f, remaining, written, requests') == RecvLoop(rest, remaining - got, w, requests' + [call]);
        TimeoutsAreRetried(steps[1..], remaining - got, w, requests + [call], requests' + [call]);
      }
    }
  }

  /** A script of whole chunks of 1 to 256 bytes, each written successfully,
      possibly with receive timeouts in between. */
  predicate CleanUpload(steps: seq<RecvStep>) {
    forall k :: 0 <= k < |steps| ==>
      steps[k].Timeout? ||
      (steps[k].Chunk? && 0 < |steps[k].bytes| <= RecvBufferSize && steps[k].writeResult == EspOk)
  }

  /** The bytes a script delivers, in order. */
  function Payload(steps: seq<RecvStep>): seq<byte> {
    if |steps| == 0 then []
    else if steps[0].Chunk? then steps[0].bytes + Payload(steps[1..])
    else Payload(steps[1..])
  }

  /** An image delivered in chunks of any sizes that add up to the announced
      length is written completely and in order. */
  lemma {:induction false} CleanUploadCompletes(steps: seq<RecvStep>, remaining: int, written: seq<byte>, requests: seq<RecvCall>)
    requires CleanUpload(steps)
    requires remaining == |Payload(steps)|
    ensures RecvLoop(steps, remaining, written, requests).failure == None
    ensures RecvLoop(steps, remaining, written, requests).written == written + Payload(steps)
    decreases |steps|
  {
    if |steps| == 0 {
    } else if remaining == 0 {
      PayloadEmptyChunks(steps);
    } else {
      var call := RecvCall(|written|, remaining, Min(remaining, RecvBufferSize));
      assert CleanUpload(steps[1..]) by {
        forall k | 0 <= k < |steps[1..]|
          ensures steps[1..][k] == steps[k + 1]
        {
        }
      }
      match steps[0]
      case Timeout =>
        CleanUploadCompletes(steps[1..], remaining, written, requests + [call]);
      case Chunk(bytes, _) =>
        assert Min(|bytes|, call.size) == |bytes|;
        assert bytes[..|bytes|] == bytes;
        CleanUploadCompletes(steps[1..], remaining - |bytes|, written + bytes, requests + [call]);
        assert written + bytes + Payload(steps[1..]) == written + Payload(steps);
    }
  }

  /** A clean script that delivers nothing holds no chunk at all. */
  lemma {:induction false} PayloadEmptyChunks(steps: seq<RecvStep>)
    requires CleanUpload(steps) && |Payload(steps)| == 0
    ensures Payload(steps) == []
  {
  }

  /** A clean upload of the announced length, with `esp_ota_end` and
      `esp_ota_set_boot_partition` succeeding, is answered 200 after writing
      exactly the delivered image, and schedules the restart. */
  lemma CleanUploadCommits(contentLen: SizeT, env: Env)
    requires contentLen < 0x8000_0000
    requires env.hasPartition && env.beginResult == EspOk
    requires CleanUpload(env.steps) && |Payload(env.steps)| == contentLen
    requires env.endResult == EspOk && env.setBootResult == EspOk
    ensures OtaPost(contentLen, env).status == Http200
    ensures OtaPost(contentLen, env).written == Payload(env.steps)
    ensures OtaPost(contentLen, env).restartAfterMs == Some(RestartDelayMs)
  {
    CleanUploadCompletes(env.steps, contentLen, [], []);
  }
}
