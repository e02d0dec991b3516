/**
 * The routing rules of `src/config.rs`: command templates (parse and
 * render), file predicates and their any-of evaluation, the versioned
 * deserialiser of the extension predicate, the rule entry and the parts of
 * the persistent configuration that routing and the playlist read.
 */
module Config {
  import opened Wrappers
  import opened RustStr
  import opened Paths

  // ---------------------------------------------------------------------------
  // Command templates

  /** One argument of a command template: a literal, or the song-path placeholder `{}`. */
  datatype ArgType = Custom(text: string) | SongPath

  /** A player invocation template. `Default` is the empty name with no arguments. */
  datatype Command = Command(name: string, args: seq<ArgType>)

  function DefaultCommand(): (r: Command)
    ensures r.args == [] && !WellFormed(r)
  {
    Command("", [])
  }

  datatype CommandParseErrorKind = ExpectedButEnd(what: string)

  datatype CommandParseError = CommandParseError(kind: CommandParseErrorKind)

  /** The only error `from_str` produces. */
  function NoCommandError(): CommandParseError {
    CommandParseError(ExpectedButEnd("command"))
  }

  /** The `Display` text of a parse error (its `thiserror` formats). */
  function ErrorMessage(e: CommandParseError): (r: string)
    ensures StartsWith(r, "parse error: Expected ") && r != ""
  {
    "parse error: Expected " + e.kind.what + ", but reached end."
  }

  /** `Display for ArgType`. */
  function ArgText(a: ArgType): (r: string)
    ensures ArgOfToken(r) == a <==> a != Custom("{}")
  {
    match a
    case Custom(s) => s
    case SongPath => "{}"
  }

  function ArgTexts(args: seq<ArgType>): seq<string> {
    seq(|args|, j requires 0 <= j < |args| => ArgText(args[j]))
  }

  /** How `from_str` reads one argument token. */
  function ArgOfToken(token: string): ArgType {
    if token == "{}" then SongPath else Custom(token)
  }

  function ArgsOfTokens(tokens: seq<string>): seq<ArgType> {
    seq(|tokens|, j requires 0 <= j < |tokens| => ArgOfToken(tokens[j]))
  }

  /**
   * The commands `from_str` can produce: a name that is one word, and
   * literal arguments that are words other than the placeholder text.
   */
  predicate WellFormed(c: Command) {
    IsWord(c.name)
    && forall j :: 0 <= j < |c.args| ==>
         (c.args[j].Custom? ==> IsWord(c.args[j].text) && c.args[j].text != "{}")
  }

  /** What `Command::from_str` computes. */
  function Parse(src: string): (r: Result<Command, CommandParseError>)
    ensures r.Failure? <==> IsBlank(src)
    ensures r.Failure? ==> r.error == NoCommandError()
    ensures r.Success? ==> WellFormed(r.value)
    ensures r.Success? ==>
      var tokens := SplitWhitespace(src);
      && |tokens| > 0
      && r.value.name == tokens[0]
      && |r.value.args| == |tokens| - 1
      && forall j :: 0 <= j < |r.value.args| ==> r.value.args[j] == ArgOfToken(tokens[j + 1])
  {
    SplitEmptyIffBlank(src);
    var tokens := SplitWhitespace(src);
    if tokens == [] then Failure(NoCommandError())
    else Success(Command(tokens[0], ArgsOfTokens(tokens[1..])))
  }

  /** What `Command::to_string` computes: the name and every argument, each followed by a space. */
  function Render(c: Command): (r: string)
    ensures StartsWith(r, c.name + " ")
    ensures |r| > 0 && r[|r| - 1] == ' '
  {
    var words := [c.name] + ArgTexts(c.args);
    assert words == words[..|words| - 1] + [words[|words| - 1]];
    TerminatedSnoc(words[..|words| - 1], words[|words| - 1]);
    Terminated(words)
  }

  /** `Command::from_str`: splits on whitespace and pushes one argument per token after the name. */
  method FromStr(src: string) returns (r: Result<Command, CommandParseError>)
    ensures r == Parse(src)
  {
    var tokens := SplitWhitespace(src);
    if tokens == [] {
      return Failure(NoCommandError());
    }
    var args: seq<ArgType> := [];
    for i := 1 to |tokens|
      invariant args == ArgsOfTokens(tokens[1..i])
    {
      assert tokens[1..i + 1] == tokens[1..i] + [tokens[i]];
      if tokens[i] == "{}" {
        args := args + [SongPath];
      } else {
        args := args + [Custom(tokens[i])];
      }
    }
    assert tokens[1..|tokens|] == tokens[1..];
    r := Success(Command(tokens[0], args));
  }

  /**
   * `Command::to_string`: writes `"{name} "` and then `"{arg} "` for every
   * argument. Writing into a `String` cannot fail, so the `fmt::Error` case
   * of the source's `Result` never arises and is not represented.
   */
  method ToString(c: Command) returns (buf: string)
    ensures buf == Render(c)
    ensures |buf| > 0 && buf[|buf| - 1] == ' '
  {
    buf := c.name + " ";
    for i := 0 to |c.args|
      invariant buf == Terminated([c.name] + ArgTexts(c.args[..i]))
      invariant |buf| > 0 && buf[|buf| - 1] == ' '
    {
      TerminatedSnoc([c.name] + ArgTexts(c.args[..i]), ArgText(c.args[i]));
      assert [c.name] + ArgTexts(c.args[..i + 1]) == [c.name] + ArgTexts(c.args[..i]) + [ArgText(c.args[i])];
      buf := buf + ArgText(c.args[i]) + " ";
    }
    assert c.args[..|c.args|] == c.args;
  }

  /** Rendering then parsing gives back every well-formed command. */
  lemma RenderParseRoundTrip(c: Command)
    requires WellFormed(c)
    ensures Parse(Render(c)) == Success(c)
  {
    var words := [c.name] + ArgTexts(c.args);
    forall j | 0 <= j < |words| ensures IsWord(words[j]) {
      if j > 0 { assert words[j] == ArgText(c.args[j - 1]); }
    }
    SplitTerminated(words);
    var p := Parse(Render(c)).value;
    assert p.args == c.args by {
      forall j | 0 <= j < |c.args| ensures p.args[j] == c.args[j] {
        assert words[j + 1] == ArgText(c.args[j]);
      }
    }
  }

  /** Parse, render, parse again: the second parse agrees with the first. */
  lemma ParseRenderParse(src: string)
    requires Parse(src).Success?
    ensures Parse(Render(Parse(src).value)) == Parse(src)
  {
    RenderParseRoundTrip(Parse(src).value);
  }

  /** The round trip holds exactly for the well-formed commands. */
  lemma RoundTripIffWellFormed(c: Command)
    ensures Parse(Render(c)) == Success(c) <==> WellFormed(c)
  {
    if WellFormed(c) { RenderParseRoundTrip(c); }
  }

  /** A literal argument spelled `{}` does not survive the round trip: it comes back as the placeholder. */
  lemma LiteralPlaceholderBecomesSongPath()
    ensures Parse(Render(Command("mpv", [Custom("{}")]))) == Success(Command("mpv", [SongPath]))
  {
    RenderParseRoundTrip(Command("mpv", [SongPath]));
    assert ArgTexts([Custom("{}")]) == ["{}"] == ArgTexts([SongPath]);
  }

  /** The default command renders as a single space, which does not parse. */
  lemma DefaultCommandDoesNotReparse()
    ensures Render(DefaultCommand()) == " "
    ensures Parse(Render(DefaultCommand())) == Failure(NoCommandError())
  {
    assert [""] + ArgTexts([]) == [""];
    assert Terminated([""]) == "" + " " + Terminated([]);
    assert IsBlank(" ");
  }

  // ---------------------------------------------------------------------------
  // Predicates

  /** The extension predicate: a space separated extension list and a case flag. `Default` is ("", false). */
  datatype HasExtsPredicate = HasExtsPredicate(extList: string, caseSensitive: bool)

  function DefaultHasExts(): (r: HasExtsPredicate)
    ensures !r.caseSensitive
    ensures forall path :: !MatchesExts(r.extList, path, r.caseSensitive)
  {
    HasExtsPredicate("", false)
  }

  datatype Predicate = BeginsWith(fragment: string) | HasExts(exts: HasExtsPredicate)

  /** The field-less twin of `Predicate` (`#[enum_kind(PredicateKind)]`). */
  datatype PredicateKind = BeginsWithKind | HasExtsKind

  function KindOf(p: Predicate): PredicateKind {
    match p
    case BeginsWith(_) => BeginsWithKind
    case HasExts(_) => HasExtsKind
  }

  /** `Predicate::matches_begin`. File names are text here, so the non-UTF-8 case does not arise. */
  predicate MatchesBegin(fragment: string, path: Path)
    ensures MatchesBegin(fragment, path) ==> FileName(path).Some? && |fragment| <= |FileName(path).value|
  {
    match FileName(path)
    case Some(name) => StartsWith(name, fragment)
    case None => false
  }

  /**
   * A prefix predicate holds exactly when the path ends in a normal
   * component whose name is the fragment followed by something.
   */
  lemma MatchesBeginSpec(fragment: string, path: Path)
    ensures MatchesBegin(fragment, path) <==>
      |path| > 0 && path[|path| - 1].Normal? && exists rest :: path[|path| - 1].name == fragment + rest
  {
    if |path| > 0 && path[|path| - 1].Normal? {
      var name := path[|path| - 1].name;
      if StartsWith(name, fragment) {
        assert name == fragment + name[|fragment|..];
      }
      if exists rest :: name == fragment + rest {
        var rest :| name == fragment + rest;
        assert name[..|fragment|] == fragment;
      }
    }
  }

  /** One comparison of `matches_exts`: exact, or up to ASCII case. */
  predicate ExtEquals(pathExt: string, ext: string, sensitive: bool) {
    if sensitive then pathExt == ext else EqIgnoreAsciiCase(pathExt, ext)
  }

  /** `Iterator::any` over the extension tokens. */
  function AnyExtMatches(tokens: seq<string>, pathExt: string, sensitive: bool): (r: bool)
    ensures r <==> exists j :: 0 <= j < |tokens| && ExtEquals(pathExt, tokens[j], sensitive)
  {
    if tokens == [] then false
    else
      ExtEquals(pathExt, tokens[0], sensitive)
      || (assert forall j :: 0 <= j < |tokens| - 1 ==> tokens[1..][j] == tokens[j + 1];
          AnyExtMatches(tokens[1..], pathExt, sensitive))
  }

  /** `Predicate::matches_exts`. */
  predicate MatchesExts(exts: string, path: Path, sensitive: bool)
    ensures MatchesExts(exts, path, sensitive) ==> Extension(path).Some? && !IsBlank(exts)
  {
    SplitEmptyIffBlank(exts);
    match Extension(path)
    case Some(pathExt) => AnyExtMatches(SplitWhitespace(exts), pathExt, sensitive)
    case None => false
  }

  /** `Predicate::matches`. */
  predicate Matches(p: Predicate, path: Path)
    ensures Matches(p, path) ==> FileName(path).Some?
  {
    match p
    case BeginsWith(fragment) => MatchesBegin(fragment, path)
    case HasExts(h) => MatchesExts(h.extList, path, h.caseSensitive)
  }

  /** `find_predicate_match`: does any predicate of the list match? */
  function FindPredicateMatch(preds: seq<Predicate>, path: Path): (r: bool)
    ensures r <==> exists j :: 0 <= j < |preds| && Matches(preds[j], path)
  {
    if preds == [] then false
    else
      Matches(preds[0], path)
      || (assert forall j :: 0 <= j < |preds| - 1 ==> preds[1..][j] == preds[j + 1];
          FindPredicateMatch(preds[1..], path))
  }

  /**
   * An extension predicate holds exactly when the path has an extension and
   * some word of the list equals it (exactly, or up to ASCII case).
   */
  lemma MatchesExtsSpec(exts: string, path: Path, sensitive: bool)
    ensures MatchesExts(exts, path, sensitive) <==>
      Extension(path).Some? &&
      exists w :: w in SplitWhitespace(exts) && ExtEquals(Extension(path).value, w, sensitive)
  {
    if Extension(path).Some? {
      var tokens := SplitWhitespace(exts);
      var e := Extension(path).value;
      if exists w :: w in tokens && ExtEquals(e, w, sensitive) {
        var w :| w in tokens && ExtEquals(e, w, sensitive);
        var j :| 0 <= j < |tokens| && tokens[j] == w;
        assert ExtEquals(e, tokens[j], sensitive);
      }
    }
  }

  /** An empty or whitespace-only extension list matches no path. */
  lemma BlankExtListMatchesNothing(exts: string, path: Path, sensitive: bool)
    requires IsBlank(exts)
    ensures !MatchesExts(exts, path, sensitive)
  {
    SplitEmptyIffBlank(exts);
  }

  /** Whatever a case-sensitive list matches, the same list matches without case sensitivity. */
  lemma SensitiveMatchImpliesInsensitive(exts: string, path: Path)
    requires MatchesExts(exts, path, true)
    ensures MatchesExts(exts, path, false)
  {
    var tokens := SplitWhitespace(exts);
    var e := Extension(path).value;
    var j :| 0 <= j < |tokens| && ExtEquals(e, tokens[j], true);
    assert ExtEquals(e, tokens[j], false);
  }

  /** Extension matching ignores ASCII case unless the predicate is case sensitive. */
  lemma CaseSensitivityExample()
    ensures Matches(HasExts(HasExtsPredicate("MP3", false)), [Normal("a.mp3")])
    ensures !Matches(HasExts(HasExtsPredicate("MP3", true)), [Normal("a.mp3")])
  {
    ExtensionOfFile("a.mp3", "a", "mp3");
    UpperMp3Facts();
    OneWordExtList("MP3", [Normal("a.mp3")], false);
    OneWordExtList("MP3", [Normal("a.mp3")], true);
  }

  /** `MP3` is one word, equal to `mp3` ignoring ASCII case but not exactly. */
  lemma UpperMp3Facts()
    ensures IsWord("MP3")
    ensures ExtEquals("mp3", "MP3", false) && !ExtEquals("mp3", "MP3", true)
  {
    assert "mp3"[0] != "MP3"[0];
  }

  /** A one-word list matches exactly the paths whose extension equals that word. */
  lemma OneWordExtList(w: string, path: Path, sensitive: bool)
    requires IsWord(w)
    ensures MatchesExts(w, path, sensitive) <==>
      Extension(path).Some? && ExtEquals(Extension(path).value, w, sensitive)
  {
    SplitWord(w);
    var tokens := SplitWhitespace(w);
    assert tokens == [w];
    if Extension(path).Some? && ExtEquals(Extension(path).value, w, sensitive) {
      assert ExtEquals(Extension(path).value, tokens[0], sensitive);
    }
  }

  /** A two-word list matches exactly the paths whose extension equals one of the two words. */
  lemma TwoWordExtList(exts: string, w1: string, w2: string, path: Path, sensitive: bool)
    requires IsWord(w1) && IsWord(w2) && exts == w1 + " " + w2
    ensures MatchesExts(exts, path, sensitive) <==>
      Extension(path).Some? &&
      (ExtEquals(Extension(path).value, w1, sensitive) || ExtEquals(Extension(path).value, w2, sensitive))
  {
    SplitWordThen(w1, w2);
    SplitWord(w2);
    var tokens := SplitWhitespace(exts);
    assert tokens == [w1, w2];
    if Extension(path).Some? {
      var e := Extension(path).value;
      if ExtEquals(e, w1, sensitive) { assert ExtEquals(e, tokens[0], sensitive); }
      if ExtEquals(e, w2, sensitive) { assert ExtEquals(e, tokens[1], sensitive); }
    }
  }

  /** Any word of the list may match. */
  lemma ExtensionListExample()
    ensures Matches(HasExts(HasExtsPredicate("mp3 flac", false)), [Normal("a.flac")])
  {
    ExtensionOfFile("a.flac", "a", "flac");
    MpFlacWords();
    TwoWordExtList("mp3 flac", "mp3", "flac", [Normal("a.flac")], false);
  }

  /** `mp3 flac` is the words `mp3` and `flac` joined by a space. */
  lemma MpFlacWords()
    ensures IsWord("mp3") && IsWord("flac")
    ensures "mp3 flac" == "mp3" + " " + "flac"
  {
  }

  /** A prefix predicate looks at the start of the file name only. */
  lemma BeginsWithExample()
    ensures Matches(BeginsWith("mdat."), [Normal("mdat.song1")])
    ensures !Matches(BeginsWith("mdat."), [Normal("song.mdat")])
  {
    assert "mdat.song1"[..5] == "mdat.";
    assert "song.mdat"[..5][0] != "mdat."[0];
  }

  // ---------------------------------------------------------------------------
  // Versioned persistence of predicates

  /**
   * The on-disk shapes a predicate's payload can take: a bare string (the
   * `BeginsWith` fragment, or the legacy `V1` extension list) or the
   * structured extension record (`V2`).
   */
  datatype Payload = JsonString(s: string) | JsonExtsRecord(record: HasExtsPredicate)

  /** A persisted predicate: an externally tagged variant. */
  datatype PersistedPredicate = PersistedPredicate(tag: string, payload: Payload)

  datatype DeserializeError = UnknownVariant(tag: string) | InvalidType

  /** `HasExtsPredicate::deserialize`: the untagged `V1(String)` / `V2(HasExtsPredicate)` versions. */
  function DeserializeHasExts(p: Payload): (r: HasExtsPredicate)
    ensures p.JsonString? ==> r.extList == p.s && !r.caseSensitive
    ensures p.JsonExtsRecord? ==> r == p.record
  {
    match p
    case JsonString(extList) => HasExtsPredicate(extList, false)
    case JsonExtsRecord(pred) => pred
  }

  /** The derived `Deserialize` of `Predicate`, with `HasExt` accepted as an alias of `HasExts`. */
  function DeserializePredicate(p: PersistedPredicate): (r: Result<Predicate, DeserializeError>)
    ensures r.Success? ==> SerializePredicate(r.value).tag == if p.tag == "HasExt" then "HasExts" else p.tag
    ensures r.Success? && p.payload.JsonExtsRecord? ==> SerializePredicate(r.value).payload == p.payload
    ensures r.Failure? ==> r.error == if p.tag == "BeginsWith" then InvalidType else UnknownVariant(p.tag)
  {
    if p.tag == "BeginsWith" then
      match p.payload
      case JsonString(s) => Success(BeginsWith(s))
      case JsonExtsRecord(_) => Failure(InvalidType)
    else if p.tag == "HasExts" || p.tag == "HasExt" then
      Success(HasExts(DeserializeHasExts(p.payload)))
    else Failure(UnknownVariant(p.tag))
  }

  /** The derived `Serialize` of `Predicate`: always the current (`V2`) shape. */
  function SerializePredicate(p: Predicate): (r: PersistedPredicate)
    ensures r.tag == "BeginsWith" || r.tag == "HasExts"
    ensures r.payload.JsonString? <==> p.BeginsWith?
  {
    match p
    case BeginsWith(s) => PersistedPredicate("BeginsWith", JsonString(s))
    case HasExts(h) => PersistedPredicate("HasExts", JsonExtsRecord(h))
  }

  /** Saving then loading a predicate gives it back. */
  lemma PredicatePersistenceRoundTrip(p: Predicate)
    ensures DeserializePredicate(SerializePredicate(p)) == Success(p)
  {
  }

  /**
   * A legacy bare-string extension list, under either tag, loads with
   * `case_sensitive = false`, and is written back in the structured shape.
   */
  lemma LegacyExtListMigrates(tag: string, extList: string)
    requires tag == "HasExts" || tag == "HasExt"
    ensures DeserializePredicate(PersistedPredicate(tag, JsonString(extList)))
            == Success(HasExts(HasExtsPredicate(extList, false)))
    ensures SerializePredicate(HasExts(HasExtsPredicate(extList, false)))
            == PersistedPredicate("HasExts", JsonExtsRecord(HasExtsPredicate(extList, false)))
  {
  }

  /** Only the three known tags load; anything else is a hard failure. */
  lemma DeserializeSucceedsIffKnownTag(p: PersistedPredicate)
    ensures DeserializePredicate(p).Success? <==>
      (p.tag == "BeginsWith" && p.payload.JsonString?) || p.tag == "HasExts" || p.tag == "HasExt"
  {
  }

  // ---------------------------------------------------------------------------
  // Rule entries and configuration

  /** One routing rule: its predicates, the command that reads the file, extra mpv arguments and a label. */
  datatype CustomDemuxerEntry = CustomDemuxerEntry(
    predicates: seq<Predicate>,
    readerCmd: Command,
    extraMpvArgs: seq<string>,
    name: string)

  /** `CustomDemuxerEntry::default()`. */
  function DefaultEntry(): (r: CustomDemuxerEntry)
    ensures r.predicates == [] && r.readerCmd == DefaultCommand() && r.name == "" && r.extraMpvArgs == []
    ensures forall path :: !FindPredicateMatch(r.predicates, path)
  {
    CustomDemuxerEntry([], DefaultCommand(), [], "")
  }

  /** An entry without predicates, such as a fresh default one, matches no path. */
  lemma EmptyPredicatesMatchNothing(e: CustomDemuxerEntry, path: Path)
    requires e.predicates == []
    ensures !FindPredicateMatch(e.predicates, path)
  {
  }

  /** The fields of `Config` that routing and the playlist use. */
  class Config {
    var musicFolder: Option<Path>
    var customDemuxers: seq<CustomDemuxerEntry>
    var followSymlinks: bool
    var skipHidden: bool

    /** `Config::default()`. */
    constructor ()
      ensures musicFolder == None && customDemuxers == []
      ensures !followSymlinks && !skipHidden
    {
      musicFolder := None;
      customDemuxers := [];
      followSymlinks := false;
      skipHidden := false;
    }
  }
}
