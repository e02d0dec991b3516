# mpvfrog core in Dafny

A Dafny model of three parts of mpvfrog, a music player that runs `mpv` and can
route some files through a custom "demuxer" command first:

- **Configuration** (`src/config.rs`). A reader command is parsed from text
  (`Command::from_str`) and rendered back (`Command::to_string`). The token
  `{}` stands for the song path. File predicates are "file name begins with"
  and "extension is one of a space separated list", optionally case
  sensitive. A rule list asks whether any predicate matches. Persisted
  extension predicates are versioned: a legacy bare string loads as a
  case-insensitive list.
- **Custom demuxers window** (`src/app/ui/custom_demuxers_window.rs`). The
  editing logic of the rule table, with the egui drawing stripped away:
  - rows can be deleted, swapped with a neighbour (with bounds guards),
    cloned in place and added;
  - a single edit register (`edit_buffer`, `edit_target`, `error_label`)
    handles the command and extra-argument fields;
  - the predicates of the selected rule can be added, selected, changed in
    kind, edited and removed.

  The window is a class whose fields the methods update. One call of
  `WindowUi` is one frame with at most one input event. The rule table is
  `Config.customDemuxers`, edited in place.
- **Playlist** (`src/app/playlist.rs`). `read_songs` walks the music folder.
  With `skip_hidden` it prunes dot-named entries and their subtrees. It keeps
  regular files unless the extension is exactly `jpg`, `png` or `txt`, makes
  their paths relative to the folder and sorts them. The playlist is a class
  holding a sequence of items.

Supporting modules model the Rust library behaviour the code relies on:

- `RustStr`: `split_whitespace` on Unicode White_Space, `join(" ")`,
  `starts_with` and `eq_ignore_ascii_case`.
- `Paths`: `Path` as a sequence of components, with `file_name`,
  `extension`, `strip_prefix` and the component-wise ordering of `Path`.
- `Wrappers`: `Option` and `Result`.

Two behaviours of the window code are modelled as written:

- The panel of the selected rule is drawn with the row loop's counter. After
  the loop that counter equals the number of rows, so the edit register is
  keyed by the row count, not by the selected row. An edit started on one
  rule and left after selecting another rule is committed into the other
  rule (`CommandEditFollowsSelection`).
- The default reader command renders as a single space, which does not
  parse. Focusing its field and leaving it unchanged therefore shows the
  parse error (`DefaultCommandDoesNotReparse`, `CommandFocusCycle`).

`src/app/ui/custom_demuxers_window.rs` imports `CustomPlayerEntry` from the
configuration, but `src/config.rs` defines `CustomDemuxerEntry` with the same
fields. Both are the one datatype `Config.CustomDemuxerEntry` here.

## Model

| member | source | states |
|---|---|---|
| RustStr.SplitEmptyIffBlank | src/config.rs:159-162 | whitespace splitting gives no token exactly when the text is empty or all whitespace |
| RustStr.SplitTerminated | src/config.rs:146-154 | splitting words that are each followed by one space gives back exactly those words |
| RustStr.SplitJoin | src/app/ui/custom_demuxers_window.rs:206-210 | splitting the space-join of single words gives back exactly those words |
| RustStr.TerminatedSnoc | src/config.rs:150-152 | appending one more word and space to the rendered text is the rendering of the extended word list |
| Paths.FileName | src/config.rs:204 | a path has a file name exactly when its last component is a normal name, and the file name is that component's name |
| Paths.NameExtension | src/config.rs:211 | no extension exactly for `..` or a name without a dot after its first character; otherwise the dot-free text after the last dot |
| Paths.NameExtensionOf | src/app/playlist.rs:45 | the extension of `base.ext` is `ext` when `base` is non-empty and `ext` has no dot |
| Paths.ExtensionOfFile | src/config.rs:211 | a one-component path `base.ext`, with a non-empty base and a dot-free `ext`, has extension `ext` |
| Paths.Extension | src/config.rs:211 | an extension exists only for a path with a file name, and is the dot-free text after a dot that is not the name's first character |
| Paths.StripPrefix | src/app/playlist.rs:53 | stripping succeeds exactly when the base is a component-wise prefix, and base followed by the result is the path |
| Paths.PathLeTotal | src/app/playlist.rs:60 | any two paths are comparable in path order |
| Paths.PathLeAntisymmetric | src/app/playlist.rs:60 | paths ordered both ways are equal |
| Paths.PathLeTransitive | src/app/playlist.rs:60 | path order is transitive |
| Config.ArgText | src/config.rs:184-190 | reading an argument's text back as a token gives the argument again, except for a literal `{}` |
| Config.DefaultCommand | src/config.rs:139-143 | the default command has no arguments and is not well formed (its name is empty) |
| Config.ErrorMessage | src/config.rs:127-137 | the parse error text begins with `parse error: Expected ` |
| Config.Render | src/config.rs:146-154 | the rendering starts with the name and a space, and ends in a space |
| Config.Parse | src/config.rs:158-175 | fails, with the "expected command" error, exactly on blank text; otherwise the first token is the name and each further token is an argument, with `{}` becoming the song-path placeholder |
| Config.FromStr | src/config.rs:158-175 | the token loop computes `Parse` |
| Config.ToString | src/config.rs:146-154 | the buffer is the name and every argument's text, each followed by one space, so it ends in a space |
| Config.RenderParseRoundTrip | src/config.rs:146-175 | rendering then parsing gives back every command whose name and literal arguments are single words other than `{}` |
| Config.ParseRenderParse | src/config.rs:146-175 | re-parsing the rendering of a parsed command gives the same command |
| Config.RoundTripIffWellFormed | src/config.rs:146-175 | the render/parse round trip holds exactly for well-formed commands |
| Config.LiteralPlaceholderBecomesSongPath | src/config.rs:165-169 | a literal argument `{}` comes back from the round trip as the song-path placeholder |
| Config.DefaultCommandDoesNotReparse | src/config.rs:139-154 | the default command renders as one space, which parses to the "expected command" error |
| Config.Matches | src/config.rs:193-201 | a predicate of either kind only ever matches a path that has a file name |
| Config.MatchesBegin | src/config.rs:203-208 | only a path whose file name is at least as long as the fragment can match |
| Config.MatchesBeginSpec | src/config.rs:203-208 | a prefix predicate holds exactly when the last component is a normal name made of the fragment followed by anything; without a file name it is false |
| Config.AnyExtMatches | src/config.rs:212-218 | true exactly when some token equals the extension under the chosen comparison |
| Config.MatchesExts | src/config.rs:210-221 | a match needs the path to have an extension and the list to hold at least one word |
| Config.OneWordExtList | src/config.rs:210-221 | a one-word list matches exactly the paths whose extension equals that word under the chosen comparison |
| Config.DefaultHasExts | src/config.rs:90-96 | the default extension predicate is case-insensitive and matches no path |
| Config.FindPredicateMatch | src/config.rs:228-232 | true exactly when some predicate of the list matches the path |
| Config.MatchesExtsSpec | src/config.rs:210-221 | an extension predicate holds exactly when the path has an extension equal to some word of the list |
| Config.BlankExtListMatchesNothing | src/config.rs:210-221 | a blank extension list matches no path |
| Config.SensitiveMatchImpliesInsensitive | src/config.rs:213-217 | a case-sensitive match is also a case-insensitive match |
| Config.TwoWordExtList | src/config.rs:210-221 | a two-word list matches exactly the extensions equal to one of its words |
| Config.CaseSensitivityExample | src/config.rs:213-217 | `MP3` matches `a.mp3` only when case-insensitive |
| Config.ExtensionListExample | src/config.rs:212 | `mp3 flac` matches `a.flac` |
| Config.BeginsWithExample | src/config.rs:203-208 | `mdat.` matches `mdat.song1` but not `song.mdat` |
| Config.DeserializeHasExts | src/config.rs:99-115 | a bare string loads as that extension list with case sensitivity off; a structured record loads unchanged |
| Config.DeserializePredicate | src/config.rs:82-88 | a loaded predicate saves under the same tag, `HasExt` becoming `HasExts`, and a structured payload saves back unchanged; a record under `BeginsWith` is a type error, any other unknown tag an unknown-variant error |
| Config.SerializePredicate | src/config.rs:82-88 | saving uses only the tags `BeginsWith` and `HasExts`, and a bare string only for `BeginsWith` |
| Config.PredicatePersistenceRoundTrip | src/config.rs:82-88 | saving then loading a predicate gives it back |
| Config.LegacyExtListMigrates | src/config.rs:99-115 | a legacy bare-string list, under `HasExts` or its alias `HasExt`, loads case-insensitive and saves in the structured form |
| Config.DeserializeSucceedsIffKnownTag | src/config.rs:82-88 | loading succeeds exactly for `BeginsWith` with a string, or `HasExts`/`HasExt` |
| Config.EmptyPredicatesMatchNothing | src/config.rs:118-125 | a rule without predicates, like a new default one, matches no path |
| Config.DefaultEntry | src/config.rs:118-125 | the default rule has no predicates, the default reader command, no name and no extra arguments, so it matches no path |
| Config.Config.constructor | src/config.rs:40-54 | no music folder, no rules, symlinks not followed, hidden files not skipped |
| CustomDemuxersWindow.Removed | src/app/ui/custom_demuxers_window.rs:72-103 | deleting a row keeps all other rows in order |
| CustomDemuxersWindow.RowOp | src/app/ui/custom_demuxers_window.rs:87-98 | only a click on an existing row records an operation; a swap is with an existing neighbour of the clicked row; a clone is of the clicked row |
| CustomDemuxersWindow.TableAfterRow | src/app/ui/custom_demuxers_window.rs:87-111 | deleting takes exactly the clicked row out of the multiset of rows, cloning adds exactly one more copy of it, swapping keeps the multiset |
| CustomDemuxersWindow.Swapped | src/app/ui/custom_demuxers_window.rs:107 | the two rows trade places, the rest stay, the table is a permutation |
| CustomDemuxersWindow.ClonedBefore | src/app/ui/custom_demuxers_window.rs:108-111 | the copy is inserted before the original and everything after shifts by one |
| CustomDemuxersWindow.PanelStep | src/app/ui/custom_demuxers_window.rs:122-292 | the panel never changes the selected row; a new edit target carries the panel's `idx`; the label changes only when the command field loses focus; the command is replaced only by a successful commit; the predicate count changes only by one add or one remove |
| CustomDemuxersWindow.Frame | src/app/ui/custom_demuxers_window.rs:62-120 | a frame changes the row count by at most one; the selection moves only to a clicked existing row; outside the panel the edit register and label stay; the panel changes only the selected rule |
| CustomDemuxersWindow.HigherThenLowerRestores | src/app/ui/custom_demuxers_window.rs:90-95 | "higher prio" then "lower prio" on the moved row restores the table |
| CustomDemuxersWindow.PrioButtonsPermute | src/app/ui/custom_demuxers_window.rs:90-95 | the prio buttons only reorder, and do nothing at the top and bottom edges |
| CustomDemuxersWindow.CloneThenDeleteRestores | src/app/ui/custom_demuxers_window.rs:87-111 | cloning a row then deleting it restores the table |
| CustomDemuxersWindow.AddThenDeleteLastRestores | src/app/ui/custom_demuxers_window.rs:113-115 | "Add" appends exactly the default rule, and deleting the last row afterwards restores the table and state |
| CustomDemuxersWindow.FrameKeepsLabelOk | src/app/ui/custom_demuxers_window.rs:158-164 | the error label only ever holds nothing or the parse error message |
| CustomDemuxersWindow.NewEditTargetIsRowCount | src/app/ui/custom_demuxers_window.rs:117-118 | only the panel changes the edit target, and a new target carries the row count |
| CustomDemuxersWindow.CommandCommit | src/app/ui/custom_demuxers_window.rs:150-167 | leaving the command field commits a parsed command and clears the label, or keeps the old command and shows the error; the register empties |
| CustomDemuxersWindow.CommandFocusCycle | src/app/ui/custom_demuxers_window.rs:170-185 | focusing and leaving the command field keeps a well-formed command; the default command produces the error |
| CustomDemuxersWindow.ArgsFocusCycle | src/app/ui/custom_demuxers_window.rs:198-229 | focusing and leaving the args field keeps the arguments exactly when each is a single word |
| CustomDemuxersWindow.ArgsCommit | src/app/ui/custom_demuxers_window.rs:198-213 | leaving the args field after typing any text stores its whitespace-separated words (none exactly for blank text) and empties the register |
| CustomDemuxersWindow.PredicateKindReset | src/app/ui/custom_demuxers_window.rs:249-263 | choosing a kind replaces the selected predicate by that kind's empty predicate and leaves the other predicates and fields alone |
| CustomDemuxersWindow.RemovePredicateOnlyInRange | src/app/ui/custom_demuxers_window.rs:249-288 | "Remove" deletes the selected predicate, keeping the others in order, only when the selection is in range; otherwise nothing changes |
| CustomDemuxersWindow.SwitchingFieldAbandonsEdit | src/app/ui/custom_demuxers_window.rs:145-228 | starting to edit the args field drops an uncommitted command edit |
| CustomDemuxersWindow.CommandEditFollowsSelection | src/app/ui/custom_demuxers_window.rs:117-118 | a command edit started on rule 0 is committed into rule 1 when rule 1 is selected first |
| CustomDemuxersWindow.AddThenRemovePredicateRestores | src/app/ui/custom_demuxers_window.rs:243-288 | adding a predicate and removing it again restores the rule |
| CustomDemuxersWindow.AddPredicateAppendsEmptyExtList | src/app/ui/custom_demuxers_window.rs:243-247 | "➕" on the predicates tab appends an empty case-insensitive extension list, which matches no path, and changes nothing else |
| CustomDemuxersWindow.CommandFocusSeedsRendering | src/app/ui/custom_demuxers_window.rs:170-185 | focusing the command field, when the register is not on it, loads the command's `to_string` text and keys the register by the panel's index; otherwise nothing changes |
| CustomDemuxersWindow.ArgsFocusSeedsJoin | src/app/ui/custom_demuxers_window.rs:215-229 | focusing the args field, when the register is not on it, loads the arguments joined by spaces and keys the register by the panel's index; otherwise nothing changes |
| CustomDemuxersWindow.CustomDemuxersWindow.constructor | src/app/ui/custom_demuxers_window.rs:9-25 | empty register and label, first row, commands tab, first predicate |
| CustomDemuxersWindow.CustomDemuxersWindow.RowsUi | src/app/ui/custom_demuxers_window.rs:70-104 | the row pass drops the deleted row, moves the selection, records the guarded operation and ends with the counter at the row count |
| CustomDemuxersWindow.CustomDemuxersWindow.SelectedDemuxerUi | src/app/ui/custom_demuxers_window.rs:122-292 | the panel updates the state and the selected rule as the one-event step does |
| CustomDemuxersWindow.CustomDemuxersWindow.CommandsTabUi | src/app/ui/custom_demuxers_window.rs:143-232 | on the commands tab, the register and label change and the rule is returned as the one-event step does |
| CustomDemuxersWindow.CustomDemuxersWindow.PredicatesTabUi | src/app/ui/custom_demuxers_window.rs:233-290 | on the predicates tab, the predicate selection changes and the rule is returned as the one-event step does |
| CustomDemuxersWindow.CustomDemuxersWindow.TableUi | src/app/ui/custom_demuxers_window.rs:62-115 | the rows, the deferred operation and "Add" leave the state and the table as the one-event frame does for every event but a panel one, which they leave untouched; the counter ends at the row count |
| CustomDemuxersWindow.CustomDemuxersWindow.WindowUi | src/app/ui/custom_demuxers_window.rs:62-120 | one frame updates the state and the table as the one-event frame does |
| Playlist.IsHidden | src/app/playlist.rs:18-24 | an entry is hidden exactly when its file name's first character is a dot |
| Playlist.Walk | src/app/playlist.rs:32-41 | the walk is empty exactly when the start is pruned as hidden; otherwise it starts with the starting node's own entry; it never yields more entries than there are nodes |
| Playlist.Follow | src/app/playlist.rs:32-41 | following child positions from a node reaches a node whose path extends the start by one component per step; a visible chain starts at a node without a dot-name |
| Playlist.WalkChildrenMembers | src/app/playlist.rs:32-41 | an entry is walked under a directory exactly when it is walked from one of its children |
| Playlist.WalkSound | src/app/playlist.rs:32-41 | every walked entry is the entry of a node reached by child positions, through visible nodes when pruning |
| Playlist.YieldsThroughChild | src/app/playlist.rs:32-41 | a node reached from child `k` is reached from an unpruned parent through position `k` first |
| Playlist.WalkComplete | src/app/playlist.rs:32-41 | every node reached by child positions, through visible nodes when pruning, has its entry walked |
| Playlist.WalkMembers | src/app/playlist.rs:32-41 | an entry is walked exactly when it belongs to a reachable node outside every pruned subtree |
| Playlist.VisibleChildWalked | src/app/playlist.rs:35-41 | a visible child of a visible directory is walked even when pruning |
| Playlist.Keeps | src/app/playlist.rs:43-52 | an entry is kept exactly when it is a regular file whose extension is none of `jpg`, `png`, `txt` |
| Playlist.SongsOf | src/app/playlist.rs:42-55 | there are at most as many songs as walked entries, and every song is a kept entry's path with the folder stripped |
| Playlist.SongsOfSnoc | src/app/playlist.rs:42-55 | one more walk entry appends its song after the earlier songs exactly when it is kept |
| Playlist.SongsOfStep | src/app/playlist.rs:42-55 | one pass of the loop over the walk extends the songs as `SongsOf` of the longer prefix |
| Playlist.OnlyLastKept | src/app/playlist.rs:42-55 | when only the last entry is kept, the songs are that entry's path with the folder stripped |
| Playlist.WalkUnderRoot | src/app/playlist.rs:32-53 | every walked entry lies below the music folder, so stripping the prefix cannot fail |
| Playlist.WalkPrunesHidden | src/app/playlist.rs:18-41 | with hidden skipping, no entry is hidden and no path component below the folder is a dot-name |
| Playlist.WalkVisitsEveryNode | src/app/playlist.rs:35-41 | without hidden skipping, the walk yields one entry per node, and every node reachable by child positions has its entry walked |
| Playlist.SongsOfMembers | src/app/playlist.rs:42-56 | an item is a song exactly when some walked regular file with an allowed extension is the folder plus the item's path |
| Playlist.SongsAvoidHidden | src/app/playlist.rs:35-56 | with hidden skipping, no song path contains a dot-name |
| Playlist.RegularFileKeptIffExtNotSkipped | src/app/playlist.rs:43-52 | a regular file `base.ext` is kept exactly when `ext` is not exactly `jpg`, `png` or `txt` (case-sensitive) |
| Playlist.FileWithoutExtensionKept | src/app/playlist.rs:45-54 | a regular file without an extension is always kept |
| Playlist.ExampleWalk | src/app/playlist.rs:32-41 | a folder of three files walks to its own entry followed by the three files |
| Playlist.SkippedFile | src/app/playlist.rs:43-52 | a regular file `base.ext` with `ext` one of `jpg`, `png`, `txt` is not kept |
| Playlist.ExampleSkipped | src/app/playlist.rs:46-50 | `cover.jpg` and `notes.txt` are not kept |
| Playlist.ExampleTrackKept | src/app/playlist.rs:43-54 | `track.flac` is kept |
| Playlist.NothingKeptNoSongs | src/app/playlist.rs:42-55 | when no walked entry is kept, there are no songs |
| Playlist.ExampleSongs | src/app/playlist.rs:32-57 | the folder with `cover.jpg`, `notes.txt` and `track.flac`, at any path, yields only `track.flac` |
| Playlist.SkippedExtsExample | src/app/playlist.rs:32-57 | the folder `/music` holding `cover.jpg`, `notes.txt` and `track.flac` yields the single song `track.flac` |
| Playlist.Insert | src/app/playlist.rs:60 | inserting into a sorted list keeps it sorted and adds exactly that item |
| Playlist.SortItems | src/app/playlist.rs:60 | the result is sorted and a permutation of the input |
| Playlist.SortedPermutationUnique | src/app/playlist.rs:60 | two sorted permutations of the same items are equal |
| Playlist.Playlist.constructor | src/app/playlist.rs:3-6 | the default playlist is empty |
| Playlist.Playlist.Get | src/app/playlist.rs:62-64 | an item exactly for an index below the length, namely the item at that index |
| Playlist.Playlist.Len | src/app/playlist.rs:65-67 | the number of items |
| Playlist.Playlist.Sort | src/app/playlist.rs:59-61 | the items become sorted and stay a permutation of the old items |
| Playlist.Playlist.ReadSongs | src/app/playlist.rs:27-58 | with no music folder nothing changes; otherwise the items are the sorted songs of the walk |

## Left out

- Drawing, layout, labels, hover texts and the window's `open` flag (`update`, `PredicateKind::label`/`desc`) are UI output without effect on the modelled state.
- Focus and clicks are abstract events, one per frame. What egui reports in a frame with several interactions is not modelled.
- `Config::load_if_exists`, `Config::load` and `Config::path` read files and create directories. JSON parsing is reduced to the tagged shapes a predicate can take.
- Volume, speed, video, theme and fallback font fields of `Config` are not used by the modelled code.
- The file system is a pre-built tree. Following symbolic links (`follow_symlinks`) decides what the tree contains. Entries that `walkdir` fails to read (dropped by `filter_map(Result::ok)`) are simply absent. The walk order of siblings is the tree's order; sorting makes it irrelevant.
- The tree's root node stands for the music folder. When the folder path has a file name, `ReadSongs` requires the root's name to be it. For a folder path without one (such as `/`), the root's name stands for the path text that `walkdir` then uses as the entry's name.
- File names are Dafny strings. Non-UTF-8 names are not modelled: the source would treat them as not hidden and never skip them as images or text.
- Playlist.Playlist.Sort: `sort_unstable_by` is modelled by an insertion sort. The contract (sorted, permutation) is what the source promises, and `SortedPermutationUnique` shows any algorithm meeting it gives the same list.
- `Playlist::iter` only lends out the items.
- `Command::to_string` returns a `Result` whose error cannot occur when writing into a `String`. The model returns the text.
- The code that chooses which rule applies to a song, and runs the reader command, is not part of this model.
