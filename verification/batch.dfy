/** The batch loop of `Main` (UMDReplaceK/Program.cs): replacements applied one after the
    other to the progressively patched image, with a running byte delta and a sticky
    "changed" flag that is raised whenever the running delta is not zero after a step.

    The loop is written over any step function; `ReplaceAll` instantiates it with
    `Replace`. */
module Batch {
  import opened Outcomes
  import opened ByteBuffer
  import opened Replacement

  /** One (path in the image, replacement bytes) pair; the bytes stand for the file the
      program reads. */
  datatype Request = Request(name: string, payload: Image)

  datatype Summary = Summary(image: Image, delta: int, wasChanged: bool)

  /** The loop from a given running delta and flag. Any failing step ends the run. */
  function Run(img: Image, requests: seq<Request>, delta: int, wasChanged: bool,
               step: (Image, Request) -> Result<Image>): (r: Result<Summary>)
    ensures requests == [] ==> r == Ok(Summary(img, delta, wasChanged))
    ensures r.Ok? ==> r.value.delta == delta + |r.value.image| - |img|
    ensures r.Ok? && wasChanged ==> r.value.wasChanged
    ensures r.Ok? && requests != [] && r.value.delta != 0 ==> r.value.wasChanged
    decreases |requests|
  {
    if requests == [] then Ok(Summary(img, delta, wasChanged))
    else
      match step(img, requests[0])
      case Err(f) => Err(f)
      case Ok(next) =>
        var running := delta + (|next| - |img|);
        Run(next, requests[1..], running, wasChanged || running != 0, step)
  }

  /** The images after each step of the batch, in order: an independent account of the same
      run, used to characterise the flag. */
  function Trace(img: Image, requests: seq<Request>, step: (Image, Request) -> Result<Image>)
    : (r: Result<seq<Image>>)
    ensures r.Ok? ==> |r.value| == |requests|
    decreases |requests|
  {
    if requests == [] then Ok([])
    else
      match step(img, requests[0])
      case Err(f) => Err(f)
      case Ok(next) =>
        match Trace(next, requests[1..], step)
        case Err(f) => Err(f)
        case Ok(rest) => Ok([next] + rest)
  }

  /** The run succeeds exactly when the trace does; the final image is the last one of the
      trace; and the flag ends raised exactly when it started raised or the running delta,
      `delta + |t[k]| - |img|`, is not zero after some step `k`. */
  lemma {:induction false} RunMatchesTrace(img: Image, requests: seq<Request>, delta: int, wasChanged: bool,
                                           step: (Image, Request) -> Result<Image>)
    ensures Run(img, requests, delta, wasChanged, step).Ok? <==> Trace(img, requests, step).Ok?
    ensures Run(img, requests, delta, wasChanged, step).Ok? ==>
      var t := Trace(img, requests, step).value;
      var s := Run(img, requests, delta, wasChanged, step).value;
      && (|t| > 0 ==> s.image == t[|t| - 1])
      && (s.wasChanged <==> wasChanged || exists k :: 0 <= k < |t| && delta + |t[k]| - |img| != 0)
    decreases |requests|
  {
    if requests != [] && step(img, requests[0]).Ok? {
      var next := step(img, requests[0]).value;
      var running := delta + (|next| - |img|);
      RunMatchesTrace(next, requests[1..], running, wasChanged || running != 0, step);
      if Run(img, requests, delta, wasChanged, step).Ok? {
        var rest := Trace(next, requests[1..], step).value;
        var t := Trace(img, requests, step).value;
        assert t == [next] + rest;
        var s := Run(img, requests, delta, wasChanged, step).value;
        assert s == Run(next, requests[1..], running, wasChanged || running != 0, step).value;
        FlagStep(img, next, rest, delta, wasChanged, s.wasChanged);
      }
    }
  }

  /** The flag after a first step to `next` and the rest of the trace, in terms of the
      whole trace `[next] + rest`. */
  lemma FlagStep(img: Image, next: Image, rest: seq<Image>, delta: int, wasChanged: bool, flag: bool)
    requires var running := delta + (|next| - |img|);
      flag <==> (wasChanged || running != 0) || exists k :: 0 <= k < |rest| && running + |rest[k]| - |next| != 0
    ensures flag <==> wasChanged || exists k :: 0 <= k < |[next] + rest| && delta + |([next] + rest)[k]| - |img| != 0
  {
    var t := [next] + rest;
    var running := delta + (|next| - |img|);
    if flag && !wasChanged && running == 0 {
      var k :| 0 <= k < |rest| && running + |rest[k]| - |next| != 0;
      assert t[k + 1] == rest[k];
    }
    if exists k :: 0 <= k < |t| && delta + |t[k]| - |img| != 0 {
      var k :| 0 <= k < |t| && delta + |t[k]| - |img| != 0;
      if k > 0 {
        assert t[k] == rest[k - 1];
      }
    }
  }

  /** One step of `Main`'s loop: `Replace` on the current image. */
  function ReplaceStep(fuel: nat): (Image, Request) -> Result<Image>
  {
    (img: Image, q: Request) =>
      match Replace(img, q.name, q.payload, fuel)
      case Ok(done) => Ok(done.image)
      case Err(f) => Err(f)
  }

  /** The whole batch from a zero delta and a clear flag: the reported delta is the change
      in image length, and a non-zero delta always raises the flag. */
  function ReplaceAll(img: Image, requests: seq<Request>, fuel: nat): (r: Result<Summary>)
    ensures r.Ok? ==> r.value.delta == |r.value.image| - |img|
    ensures r.Ok? && r.value.delta != 0 ==> r.value.wasChanged
  {
    Run(img, requests, 0, false, ReplaceStep(fuel))
  }

  /** A batch whose every intermediate image keeps the starting length raises no flag, even
      though the flag is sticky. */
  lemma UnchangedLengthsRaiseNoFlag(img: Image, requests: seq<Request>, step: (Image, Request) -> Result<Image>)
    requires Run(img, requests, 0, false, step).Ok? && Trace(img, requests, step).Ok?
    requires forall k :: 0 <= k < |Trace(img, requests, step).value| ==> |Trace(img, requests, step).value[k]| == |img|
    ensures !Run(img, requests, 0, false, step).value.wasChanged
  {
    RunMatchesTrace(img, requests, 0, false, step);
  }
}
