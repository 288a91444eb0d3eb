/** Runtime switches read from the environment, and the classification of
    thrown values as failures of an external dependency. Environment
    variables are parameters: None is a variable that is not set. */
module Runtime {
  import opened Common

  /** The values that switch local mode on. */
  const TRUTHY_VALUES: set<string> := {"1", "true", "yes", "on"}

  /** `isLocalModeEnabled()` for the value of `NEXDRIVE_LOCAL_MODE`. */
  predicate IsLocalModeEnabled(localMode: Option<string>)
  {
    Lower(Trim(localMode.GetOr(""))) in TRUTHY_VALUES
  }

  datatype RuntimeMode = Local | Connected

  /** `getRuntimeMode()`. */
  function GetRuntimeMode(localMode: Option<string>): RuntimeMode
  {
    if IsLocalModeEnabled(localMode) then Local else Connected
  }

  /** `isClerkConfigured()` for the values of the secret and publishable keys. */
  predicate IsClerkConfigured(secretKey: Option<string>, publishableKey: Option<string>)
  {
    secretKey.Some? && Trim(secretKey.value) != [] && publishableKey.Some? && Trim(publishableKey.value) != []
  }

  /** A thrown value: an `Error` with its message, a string, or anything else. */
  datatype Thrown = ErrorObject(message: string) | StringValue(text: string) | OtherValue

  /** `toErrorMessage(error)`. */
  function ToErrorMessage(e: Thrown): string
  {
    match e
    case ErrorObject(m) => m
    case StringValue(s) => s
    case OtherValue => "Unknown error"
  }

  const DEPENDENCY_ERROR_PATTERNS: seq<string> := [
    "database_url", "database is not configured", "upstash redis", "stripe is not configured",
    "stripe_secret_key", "clerk", "econnrefused", "enotfound", "fetch failed"
  ]

  /** `patterns.some(pattern => message.includes(pattern))`. */
  predicate SomeContained(message: string, patterns: seq<string>)
    decreases |patterns|
  {
    patterns != [] && (Contains(message, patterns[0]) || SomeContained(message, patterns[1..]))
  }

  /** `isDependencyError(error)`. */
  predicate IsDependencyError(e: Thrown)
  {
    SomeContained(Lower(ToErrorMessage(e)), DEPENDENCY_ERROR_PATTERNS)
  }

  const UNAVAILABLE: string := " dependency is unavailable"

  /** The response body `dependencyPayload(error, dependency)` builds. */
  datatype DependencyPayload = DependencyPayload(
    error: string, dependency: string, mode: RuntimeMode, details: string)

  function GetDependencyPayload(e: Thrown, dependency: string, localMode: Option<string>): DependencyPayload
  {
    DependencyPayload(dependency + UNAVAILABLE, dependency, GetRuntimeMode(localMode),
                      ToErrorMessage(e))
  }

  // ---------------------------------------------------------------------------
  // Properties
  // ---------------------------------------------------------------------------

  /** Local mode is on exactly when the trimmed, lower-cased value is one of
      `1`, `true`, `yes`, `on`; an unset variable leaves it off, and so does
      any value with other letters in it. */
  lemma LocalModeRules(localMode: Option<string>)
    ensures IsLocalModeEnabled(localMode) <==>
      var v := Lower(Trim(localMode.GetOr("")));
      v == "1" || v == "true" || v == "yes" || v == "on"
    ensures localMode.None? ==> !IsLocalModeEnabled(localMode)
    ensures GetRuntimeMode(localMode) == Local <==> IsLocalModeEnabled(localMode)
  {
    if localMode.None? {
      assert Trim("") == [];
    }
  }

  /** Case and surrounding blanks do not matter. */
  lemma LocalModeExample()
    ensures IsLocalModeEnabled(Some(" Yes "))
  {
    TrimExample();
    assert Lower("Yes") == "yes";
  }

  lemma TrimExample()
    ensures Trim(" Yes ") == "Yes"
  {
    TrimStartExample();
    TrimEndExample();
  }

  lemma TrimStartExample()
    ensures TrimStart(" Yes ") == "Yes "
  {
    assert " Yes "[1..] == "Yes ";
  }

  lemma TrimEndExample()
    ensures TrimEnd("Yes ") == "Yes"
  {
    assert "Yes "[..3] == "Yes";
    assert TrimEnd("Yes ") == TrimEnd("Yes");
  }

  /** Clerk counts as configured exactly when both keys are set to something
      other than blanks. */
  lemma ClerkRules(secretKey: Option<string>, publishableKey: Option<string>)
    ensures IsClerkConfigured(secretKey, publishableKey) ==> secretKey.Some? && publishableKey.Some?
    ensures IsClerkConfigured(secretKey, publishableKey) <==>
      (secretKey.Some? && !AllWhitespace(secretKey.value)) && (publishableKey.Some? && !AllWhitespace(publishableKey.value))
  {
    if secretKey.Some? { TrimEmptyIffBlank(secretKey.value); }
    if publishableKey.Some? { TrimEmptyIffBlank(publishableKey.value); }
  }

  lemma TrimEmptyIffBlank(s: string)
    ensures Trim(s) == [] <==> AllWhitespace(s)
  {
    var t := TrimStart(s);
    TrimStartDrops(s);
    TrimEndDrops(t);
    assert |t| > 0 ==> t[0] == s[|s| - |t|];
    if AllWhitespace(s) {
      assert t == [];
    }
    if Trim(s) == [] {
      assert t[0..] == t;
      assert t == [];
      assert s[..|s|] == s;
    }
  }

  /** `some` is true exactly when one of the patterns occurs. */
  lemma {:induction false} SomeContainedExists(message: string, patterns: seq<string>)
    ensures SomeContained(message, patterns) <==> exists i :: 0 <= i < |patterns| && Contains(message, patterns[i])
    decreases |patterns|
  {
    if patterns != [] {
      SomeContainedExists(message, patterns[1..]);
      if exists i :: 0 <= i < |patterns| && Contains(message, patterns[i]) {
        var i :| 0 <= i < |patterns| && Contains(message, patterns[i]);
        if i > 0 { assert patterns[1..][i - 1] == patterns[i]; }
      }
    }
  }

  /** A thrown value is a dependency failure exactly when its lower-cased
      message contains one of the nine patterns; an `Error` and a string
      with the same text classify alike. */
  lemma DependencyErrorRules(e: Thrown)
    ensures IsDependencyError(e) <==>
      exists i :: 0 <= i < |DEPENDENCY_ERROR_PATTERNS| && Contains(Lower(ToErrorMessage(e)), DEPENDENCY_ERROR_PATTERNS[i])
    ensures e.ErrorObject? ==> (IsDependencyError(e) <==> IsDependencyError(StringValue(e.message)))
  {
    SomeContainedExists(Lower(ToErrorMessage(e)), DEPENDENCY_ERROR_PATTERNS);
  }

  /** Every pattern is written in lower case, so it can match a lower-cased message. */
  lemma PatternsAreLowerCase()
    ensures forall i :: 0 <= i < |DEPENDENCY_ERROR_PATTERNS| ==>
      Lower(DEPENDENCY_ERROR_PATTERNS[i]) == DEPENDENCY_ERROR_PATTERNS[i]
  {
    forall i | 0 <= i < |DEPENDENCY_ERROR_PATTERNS|
      ensures Lower(DEPENDENCY_ERROR_PATTERNS[i]) == DEPENDENCY_ERROR_PATTERNS[i]
    {
      NoCapitalsLowerFixed(DEPENDENCY_ERROR_PATTERNS[i]);
    }
  }

  /** Lower-casing leaves a string without capitals as it is. */
  lemma NoCapitalsLowerFixed(s: string)
    requires forall i :: 0 <= i < |s| ==> !('A' <= s[i] <= 'Z')
    ensures Lower(s) == s
  {}

  /** A connection refused by the database is a dependency failure, in any case. */
  lemma RefusedConnectionIsDependencyError()
    ensures IsDependencyError(ErrorObject("ECONNREFUSED"))
  {
    assert Lower("ECONNREFUSED") == "econnrefused";
    assert StartsWith("econnrefused", DEPENDENCY_ERROR_PATTERNS[6]);
    SomeContainedExists("econnrefused", DEPENDENCY_ERROR_PATTERNS);
  }

  /** The payload's message is the dependency's name followed by the words
      saying it is unavailable. */
  lemma PayloadMessage(e: Thrown, dependency: string, localMode: Option<string>)
    ensures var p := GetDependencyPayload(e, dependency, localMode);
      p.error[..|dependency|] == dependency && p.error[|dependency|..] == UNAVAILABLE
  {
    var m := dependency + UNAVAILABLE;
    assert m[..|dependency|] == dependency;
    assert m[|dependency|..] == UNAVAILABLE;
  }

  /** The payload names the dependency and carries as details the message
      of the thrown value, the same text the classification reads. */
  lemma PayloadFields(e: Thrown, dependency: string, localMode: Option<string>)
    ensures var p := GetDependencyPayload(e, dependency, localMode);
      && p.dependency == dependency
      && (e.ErrorObject? ==> p.details == e.message)
      && (e.StringValue? ==> p.details == e.text)
      && (IsDependencyError(e) <==> SomeContained(Lower(p.details), DEPENDENCY_ERROR_PATTERNS))
  {}

  /** The payload reports local mode exactly when it is on. */
  lemma PayloadMode(e: Thrown, dependency: string, localMode: Option<string>)
    ensures GetDependencyPayload(e, dependency, localMode).mode == Local <==> IsLocalModeEnabled(localMode)
  {}

  /** A thrown value that is neither an `Error` nor a string is reported as
      an unknown error, which is not a dependency failure. */
  lemma UnknownThrownValue(dependency: string, localMode: Option<string>)
    ensures GetDependencyPayload(OtherValue, dependency, localMode).details == "Unknown error"
    ensures !IsDependencyError(OtherValue)
  {
    LowerUnknown();
    NoPatternInUnknown();
    SomeContainedExists("unknown error", DEPENDENCY_ERROR_PATTERNS);
  }

  lemma LowerUnknown()
    ensures Lower("Unknown error") == "unknown error"
  {}

  lemma NoPatternInUnknown()
    ensures forall i :: 0 <= i < |DEPENDENCY_ERROR_PATTERNS| ==> !Contains("unknown error", DEPENDENCY_ERROR_PATTERNS[i])
  {
    // for each pattern, the position of a letter "unknown error" lacks
    var missing := [0, 0, 1, 0, 0, 0, 1, 3, 0];
    forall i | 0 <= i < |DEPENDENCY_ERROR_PATTERNS|
      ensures !Contains("unknown error", DEPENDENCY_ERROR_PATTERNS[i])
    {
      MissingCharNotContained("unknown error", DEPENDENCY_ERROR_PATTERNS[i], missing[i]);
    }
  }

  /** A needle with a character the haystack lacks is not contained in it. */
  lemma {:induction false} MissingCharNotContained(haystack: string, needle: string, k: nat)
    requires k < |needle| && needle[k] !in haystack
    ensures !Contains(haystack, needle)
    decreases |haystack|
  {
    if |needle| <= |haystack| {
      assert haystack[..|needle|][k] == haystack[k];
    }
    if haystack != [] {
      assert needle[k] !in haystack[1..];
      MissingCharNotContained(haystack[1..], needle, k);
    }
  }
}
