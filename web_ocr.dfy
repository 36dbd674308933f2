/**
 * The model-loading state of `WebOCR` and its `classify` entry point. The
 * ONNX runtime is outside the model: creating a session is an input that
 * either yields a session or fails, and running a session is a function
 * parameter from the input tensor to either the output tensor or the error
 * `session.run` rejects with. The asynchronous
 * waits are modelled by what other tasks do to the shared state while
 * `classify` sleeps.
 */
module WebOcr {
  import opened Wrappers
  import opened Decoder
  import opened Preprocess

  /** A loaded `ort.InferenceSession`. */
  datatype Session = Session(handle: nat)

  /**
   * An output tensor of the session: its data, one score per class and
   * time step standing for the log-probability, and its dimensions
   * `[steps, batch, classes]`.
   */
  datatype Output = Output(data: seq<int>, dims: seq<nat>)

  /** The number of 500 ms polls `classify` makes while another task is loading the model. */
  const MaxAttempts: nat := 10

  /** The beam width `classify` decodes with. */
  const BeamWidth: nat := 3

  /** The fields `session` (`null` is `None`) and `isLoadingModel`. */
  datatype LoadState = LoadState(session: Option<Session>, loading: bool)

  /** A load in progress has not produced a session yet. */
  predicate Valid(st: LoadState) {
    st.loading ==> st.session.None?
  }

  /**
   * `loadModel` of one caller, seen from that caller: nothing happens when a
   * session exists or a load is already in progress; otherwise the session
   * is the created one, or stays `null` when creation failed, and the loading
   * flag is cleared in the `finally` block either way.
   */
  function Load(st: LoadState, created: Option<Session>): (r: LoadState)
    ensures st.session.Some? || st.loading ==> r == st
    ensures st.session.None? && !st.loading ==> r == LoadState(created, false)
    ensures Valid(r) <== Valid(st)
  {
    if st.session.Some? || st.loading then st
    else LoadState(if created.Some? then created else st.session, false)
  }

  /** What another task does to the shared state while `classify` sleeps. */
  datatype Event =
      /** Another task enters `loadModel` and starts creating a session. */
    | LoadStarted
      /** The load in progress ends, with the created session or with a failure. */
    | LoadEnded(created: Option<Session>)

  function Apply(st: LoadState, e: Event): (r: LoadState)
    ensures Valid(st) ==> Valid(r)
    ensures Valid(st) && st.session.Some? ==> r == st
  {
    match e
    case LoadStarted => if st.session.None? && !st.loading then LoadState(None, true) else st
    case LoadEnded(created) =>
      if st.loading then LoadState(if created.Some? then created else st.session, false) else st
  }

  /** The events of one sleep, in the order they happen: a sleep may hold none, or a whole load. */
  function ApplyAll(st: LoadState, es: seq<Event>): (r: LoadState)
    ensures Valid(st) ==> Valid(r)
    ensures Valid(st) && st.session.Some? ==> r == st
    decreases |es|
  {
    if es == [] then st else ApplyAll(Apply(st, es[0]), es[1..])
  }

  /** The events during sleep number `i`; the environment is quiet past the end of `events`. */
  function EventsAt(events: seq<seq<Event>>, i: nat): seq<Event> {
    if i < |events| then events[i] else []
  }

  /**
   * The wait loop `while (!this.session && attempts < 10)`, from attempt
   * `attempts` on: the final state and the number of polls made.
   */
  function Wait(st: LoadState, events: seq<seq<Event>>, attempts: nat): (r: (LoadState, nat))
    requires attempts <= MaxAttempts
    ensures attempts <= r.1 <= MaxAttempts
    ensures r.1 < MaxAttempts ==> r.0.session.Some?
    ensures Valid(st) ==> Valid(r.0)
    decreases MaxAttempts - attempts
  {
    if st.session.Some? || attempts == MaxAttempts then (st, attempts)
    else Wait(ApplyAll(st, EventsAt(events, attempts)), events, attempts + 1)
  }

  /** The grid `decodeOutput` reads: `dims[0]` steps of `dims[2]` classes; a missing dimension reads as none. */
  function NumSteps(out: Output): nat {
    if |out.dims| > 0 then out.dims[0] else 0
  }

  function NumClasses(out: Output): nat {
    if |out.dims| > 2 then out.dims[2] else 0
  }

  /**
   * Stands for the error `ort.InferenceSession.create` throws, which
   * `loadModel` logs and rethrows unchanged. That error's value is not
   * modelled; the constant borrows the text of the logged message.
   */
  const LoadFailed: string := "Failed to load ONNX model"

  /**
   * What `classify` answers: a failed load of its own rejects; no session
   * after the wait gives `""`; a canvas of width 0 makes `preprocessImage`
   * throw; a failing `session.run` rejects with its error; otherwise the
   * answer is the decoded output of the session run on the preprocessed image.
   */
  function Classified(st: LoadState, created: Option<Session>, events: seq<seq<Event>>,
                      w: nat, h: nat, rgba: seq<byte>,
                      run: (Session, Tensor) -> Result<Output, string>): (r: Result<string, string>)
    requires h > 0 && |rgba| == 4 * (TargetWidth(w, h) * TargetHeight)
  {
    var started := st.session.None? && !st.loading;
    var loaded := if started then Load(st, created) else st;
    if started && created.None? then Failure(LoadFailed)
    else
      var waited := Wait(loaded, events, 0).0;
      if waited.session.None? then Success("")
      else if TargetWidth(w, h) == 0 then Failure(IndexSizeError)
      else
        match run(waited.session.value, Preprocessed(w, h, rgba))
        case Failure(e) => Failure(e)
        case Success(out) => Success(Decode(out.data, NumSteps(out), NumClasses(out), BeamWidth))
  }

  class WebOCR {
    var session: Option<Session>
    var isLoadingModel: bool

    function State(): LoadState
      reads this
    {
      LoadState(session, isLoadingModel)
    }

    constructor()
      ensures State() == LoadState(None, false)
    {
      session := None;
      isLoadingModel := false;
    }

    /**
     * `loadModel` with the outcome of `ort.InferenceSession.create` as an
     * input: `None` is a creation that throws, and then so does `loadModel`.
     */
    method LoadModel(created: Option<Session>) returns (threw: bool)
      modifies this
      ensures State() == Load(old(State()), created)
      ensures threw <==> old(session).None? && !old(isLoadingModel) && created.None?
    {
      threw := false;
      if session.Some? || isLoadingModel {
        return;
      }
      isLoadingModel := true;
      if created.Some? {
        session := created;
      } else {
        threw := true;
      }
      isLoadingModel := false;
    }

    /** The wait loop of `classify`, with the events of each 500 ms sleep. */
    method WaitForSession(events: seq<seq<Event>>) returns (attempts: nat)
      modifies this
      ensures (State(), attempts) == Wait(old(State()), events, 0)
    {
      attempts := 0;
      while session.None? && attempts < MaxAttempts
        invariant attempts <= MaxAttempts
        invariant Wait(State(), events, attempts) == Wait(old(State()), events, 0)
        decreases MaxAttempts - attempts
      {
        var next := ApplyAll(State(), EventsAt(events, attempts));
        session := next.session;
        isLoadingModel := next.loading;
        attempts := attempts + 1;
      }
    }

    /**
     * `classify(imageElement)`, for an image `w` by `h` whose canvas bytes
     * are `rgba`: the model is loaded when nobody is loading it, the call
     * waits for another task's load, and the session's output is decoded.
     */
    method Classify(created: Option<Session>, events: seq<seq<Event>>,
                    w: nat, h: nat, rgba: seq<byte>,
                    run: (Session, Tensor) -> Result<Output, string>)
      returns (r: Result<string, string>)
      requires h > 0 && |rgba| == 4 * (TargetWidth(w, h) * TargetHeight)
      modifies this
      ensures r == Classified(old(State()), created, events, w, h, rgba, run)
      ensures var started := old(session).None? && !old(isLoadingModel);
        var loaded := if started then LoadState(created, false) else old(State());
        State() == if started && created.None? then loaded else Wait(loaded, events, 0).0
      ensures Valid(old(State())) ==> Valid(State())
    {
      if session.None? && !isLoadingModel {
        var threw := LoadModel(created);
        if threw {
          return Failure(LoadFailed);
        }
      }
      var attempts := WaitForSession(events);
      if session.None? {
        return Success("");
      }
      var inputTensor := PreprocessImage(w, h, rgba);
      if inputTensor.Failure? {
        return Failure(inputTensor.error);
      }
      var results := run(session.value, inputTensor.value);
      if results.Failure? {
        return Failure(results.error);
      }
      var out := results.value;
      var text := DecodeOutput(out.data, NumSteps(out), NumClasses(out), BeamWidth);
      r := Success(text);
    }
  }

  /** A task that finds a session already loaded uses it at once: no poll, nothing changes. */
  lemma LoadedSessionIsKept(st: LoadState, created: Option<Session>, events: seq<seq<Event>>)
    requires st.session.Some?
    ensures Load(st, created) == st
    ensures Wait(st, events, 0) == (st, 0)
  {
  }

  /**
   * A task that polls while nothing happens gives up after exactly ten polls
   * without a session, so `classify` answers `""`.
   */
  lemma {:induction false} QuietWaitGivesUp(st: LoadState, events: seq<seq<Event>>, attempts: nat)
    requires attempts <= MaxAttempts && st.session.None?
    requires forall i :: attempts <= i < |events| ==> events[i] == []
    ensures Wait(st, events, attempts) == (st, MaxAttempts)
    decreases MaxAttempts - attempts
  {
    if attempts < MaxAttempts {
      assert EventsAt(events, attempts) == [];
      QuietWaitGivesUp(st, events, attempts + 1);
    }
  }

  /**
   * When a session appears during sleep number `j`, everything before it
   * quiet, the wait ends with that state after `j + 1` polls.
   */
  lemma {:induction false} WaitSeesLoad(st: LoadState, events: seq<seq<Event>>, attempts: nat, j: nat)
    requires attempts <= j < MaxAttempts && j < |events|
    requires st.session.None?
    requires forall i :: attempts <= i < j ==> events[i] == []
    requires ApplyAll(st, events[j]).session.Some?
    ensures Wait(st, events, attempts) == (ApplyAll(st, events[j]), j + 1)
    decreases j - attempts
  {
    if attempts < j {
      assert EventsAt(events, attempts) == [];
      WaitSeesLoad(st, events, attempts + 1, j);
    } else {
      assert EventsAt(events, attempts) == events[j];
    }
  }

  /**
   * A load another task starts and completes within one sleep, even the last
   * one, is seen at the next poll.
   */
  lemma QuickLoadIsSeen(events: seq<seq<Event>>, j: nat, s: Session)
    requires j < MaxAttempts && j < |events|
    requires forall i :: 0 <= i < j ==> events[i] == []
    requires events[j] == [LoadStarted, LoadEnded(Some(s))]
    ensures Wait(LoadState(None, false), events, 0) == (LoadState(Some(s), false), j + 1)
  {
    var st := LoadState(None, false);
    assert ApplyAll(st, events[j]) == ApplyAll(LoadState(None, true), [LoadEnded(Some(s))]);
    WaitSeesLoad(st, events, 0, j);
  }

  /** The first `classify` on a fresh `WebOCR` loads the model itself and, when that works, uses it without polling. */
  lemma FirstClassify(created: Session, events: seq<seq<Event>>, w: nat, h: nat, rgba: seq<byte>,
                      run: (Session, Tensor) -> Result<Output, string>)
    requires h > 0 && |rgba| == 4 * (TargetWidth(w, h) * TargetHeight)
    requires TargetWidth(w, h) > 0
    ensures var res := run(created, Preprocessed(w, h, rgba));
      Classified(LoadState(None, false), Some(created), events, w, h, rgba, run)
      == if res.Failure? then Failure(res.error)
         else Success(Decode(res.value.data, NumSteps(res.value), NumClasses(res.value), BeamWidth))
  {
    LoadedSessionIsKept(LoadState(Some(created), false), Some(created), events);
  }

  /** An image less than one pixel wide once scaled to 64 pixels high makes `classify` reject once a session exists. */
  lemma NarrowImageRejects(st: LoadState, events: seq<seq<Event>>, w: nat, h: nat, rgba: seq<byte>,
                           run: (Session, Tensor) -> Result<Output, string>)
    requires h > 0 && w * TargetHeight < h && rgba == []
    requires st.session.Some?
    ensures Classified(st, None, events, w, h, rgba, run) == Failure(IndexSizeError)
  {
    LoadedSessionIsKept(st, None, events);
  }

  /** A failed load of one's own rejects, and a later `classify` may try again since the flag is clear. */
  lemma FailedLoadRetries(created: Option<Session>)
    ensures Load(LoadState(None, false), None) == LoadState(None, false)
    ensures Load(Load(LoadState(None, false), None), created) == LoadState(created, false)
  {
  }
}
