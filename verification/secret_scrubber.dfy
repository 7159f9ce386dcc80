/** The scrubber's entry points. */
module SecretScrubber {
  import opened Bytes
  import opened LogScanner
  import opened LogScrubber
  import opened LogScrubberLoops
  import opened LogScrubberTheorems
  import opened QuoteLexer
  import opened WrittenLine

  predicate Bracketless(s: Text) {
    forall k :: 0 <= k < |s| ==> s[k] != 0x7B && s[k] != 0x5B
  }

  /** `None` is the input itself, borrowed: exactly when nothing of it is replaced. */
  method ScrubForPersistenceBorrowed(env: Env, input: Text) returns (r: Option<Text>)
    ensures r == None <==> AllKept(env, input, 0, LineValues(env, input), 0)
    ensures IsWritten(env, input, 0, LineValues(env, input), 0, GetOr(r, input))
    ensures Bracketless(input) ==> r == if input == [] then None else env.scrubText(input)
  {
    LineIsWritten(env, input, 0);
    if Bracketless(input) {
      BracketlessLine(env, input, 0);
    }
    r := ScrubLogLineAt(env, input, 0);
  }

  /** The owned form: a line with nothing to replace comes back as it is. */
  method ScrubForPersistence(env: Env, input: Text) returns (line: Text)
    ensures IsWritten(env, input, 0, LineValues(env, input), 0, line)
    ensures AllKept(env, input, 0, LineValues(env, input), 0) ==> line == input
    ensures Bracketless(input) && input != [] ==> line == ProseText(env, input)
  {
    var r := ScrubForPersistenceBorrowed(env, input);
    line := GetOr(r, input);
  }

  /** Shape and keys are kept, and every leaf is cleaned, masked or untouched as its place demands. */
  method ScrubJsonValue(env: Env, value: Json) returns (r: Json)
    ensures Sanitized(env, value, r, 0)
  {
    ScrubJsonSanitizes(env, value, 0);
    var masked := ScrubJsonAt(env, value, 0);
    r := masked.value;
  }
}
