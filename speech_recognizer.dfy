/** The `SpeechRecognizer` wrapper of utils/speechRecognition.ts around the
    browser's speech-recognition object. The platform, the browser globals
    and the engine's own behaviour (whether its `start` or `stop` throws,
    which events it delivers) are inputs; the callbacks the caller passes
    are identified by a number, and every call made into them, into the
    engine and into the console is recorded in a ghost log. */
module SpeechRecognition {
  import opened Wrappers

  /** One recognition alternative delivered by the engine. */
  datatype Alternative = Alternative(transcript: string, confidence: real)

  /** What the wrapper hands to `onResult`. */
  datatype SpeechResult = SpeechResult(text: string, confidence: real)

  /** A callback passed to `start`, by identity. */
  type Callback = nat

  /** A call into one of the caller's callbacks. */
  datatype Report = ResultReport(callback: Callback, result: SpeechResult) | ErrorReport(callback: Callback, message: string)

  /** A call into the engine. */
  datatype EngineCall = StartCall | StopCall

  const MobileMessage: string := "Speech recognition is not available on mobile. Please use the image upload feature instead."
  const StartFailedMessage: string := "Failed to start speech recognition"

  /** The first argument of the two `console.error` calls. */
  const StartErrorLog: string := "Speech recognition error:"
  const StopErrorLog: string := "Error stopping speech recognition:"

  /** The environment offers speech recognition: the platform is the web, a
      `window` exists and it has `SpeechRecognition` or
      `webkitSpeechRecognition`. `available` stands for the last two. */
  predicate Supported(isWeb: bool, available: bool) {
    isWeb && available
  }

  /** The browser's recognition object, as far as the wrapper touches it. */
  class Recognition {
    var continuous: bool
    var interimResults: bool
    var onResult: Option<Callback>
    var onError: Option<Callback>

    /** A fresh engine object: single-shot, final results only, no handlers. */
    constructor ()
      ensures !continuous && !interimResults && onResult.None? && onError.None?
    {
      continuous := false;
      interimResults := false;
      onResult := None;
      onError := None;
    }
  }

  class SpeechRecognizer {
    /** `Platform.OS === 'web'`. */
    const isWeb: bool
    /** The engine object, created once by the constructor, or none. */
    const recognition: Recognition?
    var isListening: bool

    ghost var engineCalls: seq<EngineCall>
    ghost var reports: seq<Report>
    ghost var consoleErrors: seq<string>

    /** An engine object exists only on the web and is configured for
        continuous, interim results; the wrapper listens only through one. */
    ghost predicate Valid()
      reads this, recognition
    {
      (recognition != null ==> isWeb && recognition.continuous && recognition.interimResults) &&
      (isListening ==> recognition != null)
    }

    /** The engine object is created exactly when the environment supports
        recognition, and is switched to continuous, interim results. */
    constructor (isWeb: bool, available: bool)
      ensures Valid()
      ensures this.isWeb == isWeb && (recognition != null <==> Supported(isWeb, available))
      ensures recognition != null ==> fresh(recognition) && recognition.onResult.None? && recognition.onError.None?
      ensures !isListening && engineCalls == [] && reports == [] && consoleErrors == []
    {
      this.isWeb := isWeb;
      if isWeb && available {
        var r := new Recognition();
        r.continuous := true;
        r.interimResults := true;
        recognition := r;
      } else {
        recognition := null;
      }
      isListening := false;
      engineCalls := [];
      reports := [];
      consoleErrors := [];
    }

    /** The `catch` block of `start`. */
    method StartFailed(onError: Callback)
      modifies this
      ensures !isListening && engineCalls == old(engineCalls)
      ensures reports == old(reports) + [ErrorReport(onError, StartFailedMessage)]
      ensures consoleErrors == old(consoleErrors) + [StartErrorLog]
    {
      isListening := false;
      reports := reports + [ErrorReport(onError, StartFailedMessage)];
      consoleErrors := consoleErrors + [StartErrorLog];
    }

    /** `start`: ignored while listening. Otherwise, on the web it installs
        handlers that forward to the two callbacks and starts the engine, and
        listens unless there is no engine object or its `start` throws, in
        which case `onError` hears that starting failed. Off the web
        `onError` hears that recognition is not available on mobile. */
    method Start(onResult: Callback, onError: Callback, engineStartThrows: bool)
      requires Valid()
      modifies this, recognition
      ensures Valid()
      ensures old(isListening) ==> unchanged(this) && unchanged(recognition)
      ensures !old(isListening) && !isWeb ==>
                !isListening && engineCalls == old(engineCalls) && consoleErrors == old(consoleErrors) &&
                reports == old(reports) + [ErrorReport(onError, MobileMessage)]
      ensures !old(isListening) && isWeb && recognition == null ==>
                !isListening && engineCalls == old(engineCalls) &&
                reports == old(reports) + [ErrorReport(onError, StartFailedMessage)] &&
                consoleErrors == old(consoleErrors) + [StartErrorLog]
      ensures !old(isListening) && isWeb && recognition != null ==>
                recognition.onResult == Some(onResult) && recognition.onError == Some(onError) &&
                engineCalls == old(engineCalls) + [StartCall] &&
                (isListening <==> !engineStartThrows) &&
                (engineStartThrows ==>
                   reports == old(reports) + [ErrorReport(onError, StartFailedMessage)] &&
                   consoleErrors == old(consoleErrors) + [StartErrorLog]) &&
                (!engineStartThrows ==> reports == old(reports) && consoleErrors == old(consoleErrors))
    {
      if isListening {
        return;
      }
      isListening := true;
      if isWeb {
        if recognition == null {
          StartFailed(onError);
          return;
        }
        recognition.onResult := Some(onResult);
        recognition.onError := Some(onError);
        engineCalls := engineCalls + [StartCall];
        if engineStartThrows {
          StartFailed(onError);
        }
      } else {
        isListening := false;
        reports := reports + [ErrorReport(onError, MobileMessage)];
      }
    }

    /** `stop`: ignored unless listening. Otherwise it stops the engine,
        logs the error if the engine's `stop` throws, and in every case
        stops listening. */
    method Stop(engineStopThrows: bool)
      requires Valid()
      modifies this
      ensures Valid()
      ensures !old(isListening) ==> unchanged(this)
      ensures old(isListening) ==>
                !isListening && reports == old(reports) &&
                engineCalls == old(engineCalls) + [StopCall] &&
                consoleErrors == old(consoleErrors) + (if engineStopThrows then [StopErrorLog] else [])
    {
      if !isListening {
        return;
      }
      if isWeb && recognition != null {
        engineCalls := engineCalls + [StopCall];
        if engineStopThrows {
          consoleErrors := consoleErrors + [StopErrorLog];
        }
      }
      isListening := false;
    }

    /** `isSupported`, asked of the environment at the time of the call. */
    method IsSupported(available: bool) returns (supported: bool)
      ensures supported == Supported(isWeb, available)
      ensures !isWeb ==> !supported
    {
      if isWeb && available {
        return true;
      }
      return false;
    }

    /** The engine delivers a result event. The installed handler reads
        alternative 0 of the last result and passes its transcript and
        confidence to `onResult`; with no result, or no alternative in the
        last one, reading it throws inside the handler and nothing is
        reported. Listening is not affected. */
    method DeliverResult(results: seq<seq<Alternative>>) returns (threw: bool)
      requires Valid() && recognition != null
      modifies this
      ensures Valid()
      ensures isListening == old(isListening) && engineCalls == old(engineCalls) && consoleErrors == old(consoleErrors)
      ensures recognition.onResult.None? ==> !threw && reports == old(reports)
      ensures recognition.onResult.Some? ==>
                (threw <==> results == [] || results[|results| - 1] == []) &&
                (threw ==> reports == old(reports)) &&
                (!threw ==>
                   var best := results[|results| - 1][0];
                   reports == old(reports) +
                     [ResultReport(recognition.onResult.value, SpeechResult(best.transcript, best.confidence))])
    {
      threw := false;
      if recognition.onResult.Some? {
        var last := |results| - 1;
        if last < 0 || results[last] == [] {
          threw := true;
        } else {
          var alternative := results[last][0];
          reports := reports + [ResultReport(recognition.onResult.value,
                                             SpeechResult(alternative.transcript, alternative.confidence))];
        }
      }
    }

    /** The engine delivers an error event: its code goes to `onError`
        verbatim. The handler does not stop listening. */
    method DeliverError(code: string)
      requires Valid() && recognition != null
      modifies this
      ensures Valid()
      ensures isListening == old(isListening) && engineCalls == old(engineCalls) && consoleErrors == old(consoleErrors)
      ensures recognition.onError.None? ==> reports == old(reports)
      ensures recognition.onError.Some? ==> reports == old(reports) + [ErrorReport(recognition.onError.value, code)]
    {
      if recognition.onError.Some? {
        reports := reports + [ErrorReport(recognition.onError.value, code)];
      }
    }
  }

  /* ---------- the documented scenarios ---------- */

  /** A started web recognizer starts the engine once; a second `start`
      while listening does nothing. */
  method StartTwice() returns (r: SpeechRecognizer)
    ensures r.isListening && r.engineCalls == [StartCall] && r.reports == []
  {
    r := new SpeechRecognizer(true, true);
    r.Start(1, 2, false);
    r.Start(3, 4, false);
  }

  /** A result event reaches `onResult` with the last result's first
      alternative. */
  method ResultForwarded() returns (r: SpeechRecognizer)
    ensures r.reports == [ResultReport(1, SpeechResult("test transcript", 0.9))]
  {
    r := new SpeechRecognizer(true, true);
    r.Start(1, 2, false);
    var threw := r.DeliverResult([[Alternative("earlier", 0.5)], [Alternative("test transcript", 0.9)]]);
  }

  /** An error event reaches `onError` with its code, and the recognizer
      still counts as listening, so a later `start` is ignored until `stop`. */
  method ErrorKeepsListening() returns (r: SpeechRecognizer)
    ensures r.reports == [ErrorReport(2, "not-allowed")]
    ensures r.isListening && r.engineCalls == [StartCall]
  {
    r := new SpeechRecognizer(true, true);
    r.Start(1, 2, false);
    r.DeliverError("not-allowed");
    r.Start(1, 2, false);
  }

  /** Without an engine, or when the engine's `start` throws, `onError`
      hears that starting failed and the recognizer does not listen. */
  method StartWithoutEngine() returns (r: SpeechRecognizer)
    ensures !r.isListening && r.reports == [ErrorReport(2, StartFailedMessage)]
    ensures r.engineCalls == [] && r.consoleErrors == [StartErrorLog]
  {
    r := new SpeechRecognizer(true, false);
    r.Start(1, 2, false);
  }

  method StartThrows() returns (r: SpeechRecognizer)
    ensures !r.isListening && r.reports == [ErrorReport(2, StartFailedMessage)]
    ensures r.engineCalls == [StartCall] && r.consoleErrors == [StartErrorLog]
  {
    r := new SpeechRecognizer(true, true);
    r.Start(1, 2, true);
  }

  /** On mobile `start` reports the mobile message and never listens. */
  method StartOnMobile() returns (r: SpeechRecognizer)
    ensures !r.isListening && r.reports == [ErrorReport(2, MobileMessage)] && r.engineCalls == []
  {
    r := new SpeechRecognizer(false, true);
    r.Start(1, 2, false);
  }

  /** `stop` after `start` stops the engine; `stop` when not listening does
      not; a throwing engine `stop` is logged and still ends listening. */
  method StartThenStop(engineStopThrows: bool) returns (r: SpeechRecognizer)
    ensures !r.isListening && r.engineCalls == [StartCall, StopCall] && r.reports == []
    ensures r.consoleErrors == (if engineStopThrows then [StopErrorLog] else [])
  {
    r := new SpeechRecognizer(true, true);
    r.Start(1, 2, false);
    r.Stop(engineStopThrows);
  }

  method StopWhenIdle() returns (r: SpeechRecognizer)
    ensures !r.isListening && r.engineCalls == [] && r.consoleErrors == []
  {
    r := new SpeechRecognizer(true, true);
    r.Stop(false);
  }

  /** `isSupported` agrees with whether the constructor found an engine. */
  method SupportMatchesEngine(isWeb: bool, available: bool) returns (supported: bool, r: SpeechRecognizer)
    ensures supported <==> r.recognition != null
    ensures !isWeb ==> !supported
  {
    r := new SpeechRecognizer(isWeb, available);
    supported := r.IsSupported(available);
  }
}
