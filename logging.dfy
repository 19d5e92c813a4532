/** LevelFromString: a log level named case-insensitively, with the info
    level and a warning for anything else. */
module Logging {
  import opened Wrappers

  /** The seven levels, most severe first. */
  datatype Level = PanicLevel | FatalLevel | ErrorLevel | WarnLevel | InfoLevel | DebugLevel | TraceLevel

  /** The upper case of one character, as far as the keywords can tell: ASCII
      letters, and the two non-ASCII characters whose upper case is an ASCII
      letter (dotless i and long s). Every other character is kept as it is;
      the upper case of any of them is outside ASCII, so no keyword can come of it. */
  function UpperRune(c: char): (u: char)
    ensures 'A' <= u <= 'Z' ==> u == c || u as int == c as int - 32 || c == 'ı' || c == 'ſ'
  {
    if 'a' <= c <= 'z' then (c as int - 32) as char
    else if c == 'ı' then 'I'
    else if c == 'ſ' then 'S'
    else c
  }

  /** strings.ToUpper, character by character. */
  function ToUpper(s: string): (r: string)
    ensures |r| == |s|
    ensures forall i | 0 <= i < |s| :: r[i] == UpperRune(s[i])
  {
    if s == [] then [] else [UpperRune(s[0])] + ToUpper(s[1..])
  }

  /** The keyword that selects each level. */
  function Keyword(l: Level): (k: string)
    ensures 4 <= |k| <= 5
  {
    match l
    case PanicLevel => "PANIC"
    case FatalLevel => "FATAL"
    case ErrorLevel => "ERROR"
    case WarnLevel => "WARN"
    case InfoLevel => "INFO"
    case DebugLevel => "DEBUG"
    case TraceLevel => "TRACE"
  }

  /** The level chosen, and the warning written when there was no match. */
  datatype Parsed = Parsed(level: Level, warning: Option<string>)

  const WarningPrefix: string := "Invalid level provided: "

  /** Total: every input gives a level. Without a warning, the level is the
      one whose keyword is the input's upper case; with one, it is the info
      level and the warning quotes the input as it was given. */
  function LevelFromString(level: string): (r: Parsed)
    ensures r.warning.None? ==> ToUpper(level) == Keyword(r.level)
    ensures r.warning.Some? ==> r.level == InfoLevel && r.warning == Some(WarningPrefix + level)
  {
    var up := ToUpper(level);
    if up == "PANIC" then Parsed(PanicLevel, None)
    else if up == "FATAL" then Parsed(FatalLevel, None)
    else if up == "ERROR" then Parsed(ErrorLevel, None)
    else if up == "WARN" then Parsed(WarnLevel, None)
    else if up == "INFO" then Parsed(InfoLevel, None)
    else if up == "DEBUG" then Parsed(DebugLevel, None)
    else if up == "TRACE" then Parsed(TraceLevel, None)
    else Parsed(InfoLevel, Some(WarningPrefix + level))
  }

  /** Upper-casing an upper-case keyword leaves it unchanged. */
  lemma ToUpperOfKeyword(l: Level)
    ensures ToUpper(Keyword(l)) == Keyword(l)
  {
    KeywordIsCapitals(l);
    UpperOfCapitals(Keyword(l));
  }

  /** ASCII capitals are their own upper case. */
  lemma UpperOfCapitals(s: string)
    requires forall i | 0 <= i < |s| :: 'A' <= s[i] <= 'Z'
    ensures ToUpper(s) == s
  {
    var r := ToUpper(s);
    forall i | 0 <= i < |s| ensures r[i] == s[i] {
      assert r[i] == UpperRune(s[i]);
    }
  }

  /** An input whose upper case is a keyword selects that keyword's level. */
  lemma KeywordSelects(level: string, l: Level)
    requires ToUpper(level) == Keyword(l)
    ensures LevelFromString(level) == Parsed(l, None)
  {
    match l
    case PanicLevel =>
    case FatalLevel =>
    case ErrorLevel =>
    case WarnLevel =>
    case InfoLevel =>
    case DebugLevel =>
    case TraceLevel =>
  }

  /** Each keyword selects its own level: the seven levels are told apart. */
  lemma KeywordRoundTrip(l: Level)
    ensures LevelFromString(Keyword(l)) == Parsed(l, None)
  {
    ToUpperOfKeyword(l);
    KeywordSelects(Keyword(l), l);
  }

  lemma KeywordsDistinct(l1: Level, l2: Level)
    requires l1 != l2
    ensures Keyword(l1) != Keyword(l2)
  {
    KeywordRoundTrip(l1);
    KeywordRoundTrip(l2);
  }

  /** The match ignores case: inputs with the same upper case give the same level. */
  lemma CaseInsensitive(a: string, b: string)
    requires ToUpper(a) == ToUpper(b)
    ensures LevelFromString(a).level == LevelFromString(b).level
    ensures LevelFromString(a).warning.Some? <==> LevelFromString(b).warning.Some?
  {
    if l :| ToUpper(a) == Keyword(l) {
      KeywordSelects(a, l);
      KeywordSelects(b, l);
    } else {
      WarningIff(a);
      WarningIff(b);
    }
  }

  /** ASCII lower case. */
  function ToLower(s: string): (r: string)
    ensures |r| == |s|
    ensures forall i | 0 <= i < |s| :: r[i] == if 'A' <= s[i] <= 'Z' then (s[i] as int + 32) as char else s[i]
  {
    if s == [] then []
    else [if 'A' <= s[0] <= 'Z' then (s[0] as int + 32) as char else s[0]] + ToLower(s[1..])
  }

  /** Every keyword is spelt in ASCII capitals. */
  lemma KeywordIsCapitals(l: Level)
    ensures forall i | 0 <= i < |Keyword(l)| :: 'A' <= Keyword(l)[i] <= 'Z'
  {
    match l
    case PanicLevel =>
    case FatalLevel =>
    case ErrorLevel =>
    case WarnLevel =>
    case InfoLevel =>
    case DebugLevel =>
    case TraceLevel =>
  }

  /** Upper-casing the lower case of ASCII capitals gives them back. */
  lemma UpperOfLower(s: string)
    requires forall i | 0 <= i < |s| :: 'A' <= s[i] <= 'Z'
    ensures ToUpper(ToLower(s)) == s
  {
    var lower := ToLower(s);
    var r := ToUpper(lower);
    forall i | 0 <= i < |s| ensures r[i] == s[i] {
      var c := s[i];
      assert lower[i] == (c as int + 32) as char;
      assert 'a' <= lower[i] <= 'z';
      assert r[i] == (lower[i] as int - 32) as char;
    }
  }

  /** The lower-case spelling of each keyword selects the same level. */
  lemma LowerCaseKeyword(l: Level)
    ensures LevelFromString(ToLower(Keyword(l))) == Parsed(l, None)
  {
    KeywordIsCapitals(l);
    UpperOfLower(Keyword(l));
    KeywordSelects(ToLower(Keyword(l)), l);
  }

  /** A warning is written exactly when the input names no level, and it
      quotes the input unchanged, not its upper case. */
  lemma WarningIff(level: string)
    ensures LevelFromString(level).warning.Some? <==> forall l: Level :: ToUpper(level) != Keyword(l)
    ensures LevelFromString(level).warning.Some? ==>
      LevelFromString(level) == Parsed(InfoLevel, Some(WarningPrefix + level))
  {
    if LevelFromString(level).warning.Some? {
      var up := ToUpper(level);
      forall l: Level ensures up != Keyword(l) {
        if up == Keyword(l) { KeywordSelects(level, l); }
      }
    }
  }

  lemma InvalidLevel()
    ensures LevelFromString("invalid") == Parsed(InfoLevel, Some("Invalid level provided: invalid"))
  {
    var s := "invalid";
    forall l: Level ensures ToUpper(s) != Keyword(l) {
      assert |ToUpper(s)| == 7;
    }
    WarningIff(s);
    assert WarningPrefix + s == "Invalid level provided: invalid";
  }

  lemma InvalidLevelUpperCase()
    ensures LevelFromString("INVALID") == Parsed(InfoLevel, Some("Invalid level provided: INVALID"))
  {
    var s := "INVALID";
    forall l: Level ensures ToUpper(s) != Keyword(l) {
      assert |ToUpper(s)| == 7;
    }
    WarningIff(s);
    assert WarningPrefix + s == "Invalid level provided: INVALID";
  }

  /** Non-ASCII input can name a level: dotless i upper-cases to I. */
  lemma DotlessIName()
    ensures LevelFromString("ınfo") == Parsed(InfoLevel, None)
  {
    var s := "ınfo";
    assert forall i | 0 <= i < |s| :: ToUpper(s)[i] == UpperRune(s[i]);
    assert ToUpper(s) == Keyword(InfoLevel);
    KeywordSelects(s, InfoLevel);
  }
}
