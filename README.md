# Obsidian → Valaxy publishing pipeline, modelled in Dafny

This project models the logic of the two publishing scripts of a Valaxy blog. `publish.py` is the command-line tool. `publish_gui.py` is the `PublishApp` window. Both take an Obsidian note and turn it into a blog post in four steps:

- **Front matter.** The note's front matter is split off and written back. This is a `---` … `---` YAML block at the top of the note.
- **Image migration.** Every image reference in the note is looked up in the vault. The file found is copied into the blog's asset directory, renamed with a timestamp when a different file of that name is already there. The reference is rewritten to `![alt](/assets/<name>)`.
- **Header completion.** The header is completed, by different rules in the two scripts:
  - The CLI fills in what is missing. When nothing is missing it leaves the note alone.
  - The GUI rewrites the fields from its form.
- **Tags.** Tags are chosen from an index of the tags already used by the blog's posts, ranked by how often they occur. The CLI takes a typed selection line. The GUI uses the tags loaded from the note.

The model is split into these modules:

- **Shared pieces.**
  - `Base`: Python string operations (`strip`, `lower`, `split`, `join`, `replace`) and order-keeping de-duplication.
  - `Dict`: insertion-ordered dicts.
  - `PyRepr`: Python's `repr()` of a string, the quote it picks and its escapes, with the literal read back.
  - `Yaml`: YAML values with Python truthiness and `str()`, and an abstract codec.
  - `Paths`: `pathlib` on `/`-separated paths, and the filesystem as a map from paths to bytes.
  - `StrOrder`: Python's string order and `sorted()` of a set.
- **`FrontMatter`**: the front-matter regex, matched exactly as Python's backtracking engine does, and the round trip.
- **`AssetResolver`**: `find_image_file`.
- **`AssetStore`**: the asset directory as a class with `_copy_image`.
- **`RefSyntax`**: the two image-reference patterns, as matchers proved equal to declarative descriptions of the patterns.
- **`ImageMigrator`**: the two `re.sub` passes, specified as functions and implemented as loops over the store.
- **`TagIndex`**: the tag and category collectors.
- **`TagSelection`**: the parsing of the typed selection line.
- **`HeaderOps` and `HeaderFill`**: the CLI's header rules.
- **`GuiHeader`**: the GUI's header rules.
- **`PublishApp`**: the window's state and event handlers, the publish validation and the output file name.
- **`PublishScenario`**: a worked Publish click on a directory named like a note, which passes the checks and aborts on the reload.
- **`ResolverScenario`**: a worked image search for a reference that climbs out of a folder the vault does not have.

Outside inputs become parameters:

- the YAML library (`Codec`);
- the file system (`FileSystem`);
- the asset directory's contents (`Store.files`);
- the clock (`now`, `stamp`);
- the user's typed answers and the form's entries;
- what reading a file gives (`read`): its text, undecodable, or a read error.

## Model

| member | source | states |
|---|---|---|
| Base.Strip | publish.py:153 | `str.strip()`: `rstrip()` of `lstrip()`. Its properties are `StripShape`, `StripEnds`, `StripIdentity` and `StripIdempotent`. |
| Base.TrimStart | publish.py:153 | `lstrip()` removes exactly a leading whitespace run: the rest is a suffix of the input that does not start with whitespace. |
| Base.TrimEnd | publish.py:153 | `rstrip()` removes exactly a trailing whitespace run. |
| Base.StripShape | publish.py:153 | `strip()` returns a slice of its input with no whitespace at either end; it is empty exactly when the input is all whitespace. |
| Base.TrimmedParts | publish.py:153 | Whatever leading and trailing runs are cut, when they are whitespace and what is left has no whitespace at either end, the rest is the middle slice, and it is empty exactly when the input is all whitespace. |
| Base.StripEnds | publish.py:153 | `strip()` leaves no whitespace at either end, and gives the empty string exactly when the input is all whitespace. |
| Base.StripIdentity | publish.py:286 | Text without surrounding whitespace is left unchanged by `strip()`. |
| Base.StripClean | publish.py:286 | `strip()` yields either the empty string or a clean name (non-empty, no whitespace at either end). |
| Base.StripIdempotent | publish.py:280-286 | Stripping an already stripped input again changes nothing. |
| Base.Lower | publish.py:193 | `lower()` keeps the length and maps every character on its own. |
| Base.Split | publish.py:286 | `split(",")` gives at least one piece, and no piece contains the separator. |
| Base.SplitJoin | publish.py:286 | Joining the pieces of a split with the separator gives back the input: splitting loses nothing. |
| Base.JoinSplit | publish.py:286 | Separator-free pieces joined by the separator split back into exactly those pieces. |
| Base.ReplaceCharAt | publish.py:499 | `replace(" ", "-")` changes each occurrence of the character and nothing else, position by position. |
| Base.Dedup | publish.py:294-301 | The order-keeping de-duplication holds exactly the elements of its input. |
| Base.DedupSnoc | publish.py:294-301 | Appending an element to the input appends it to the result exactly when it is not there yet. This is the `if tag not in selected_tags: append` step. |
| Base.DedupOrder | publish.py:294-301 | The de-duplicated list has no repeats and lists elements in the order of their first occurrence. |
| Base.DedupDistinct | publish.py:294-301 | A list without repeats is its own de-duplication. |
| Dict.Keys | publish.py:84 | The keys of a dict, in insertion order, one per entry. |
| Dict.Get | publish.py:353 | `d.get(key)` finds a value exactly when the key is present. |
| Dict.Set | publish.py:354 | `d[key] = value`: the key now holds the value, every other key keeps its value, and a new key is appended at the end. |
| Dict.SetKeepsOthers | publish.py:354 | Assigning a key leaves every entry under another key where and as it was. |
| Dict.GetAt | publish.py:353 | In a dict with distinct keys, every entry is what a lookup of its key finds. |
| Dict.AssignAppend | publish.py:353-371 | Making the assignments of `a + b` is making those of `a`, then those of `b`. |
| Dict.AssignSnoc | publish.py:353-371 | One more assignment at the end is one more `d[key] = value`. |
| Dict.AssignOpt | publish.py:353-371 | An assignment guarded by an `if` is made exactly when its guard holds. |
| Dict.Fresh | publish.py:353-371 | The keys of a list that are not already present, in order. |
| Dict.GetAppend | publish.py:327-345 | A lookup in `a + b` finds the entry of `a` first. |
| Dict.AssignGet | publish.py:353-371 | After a list of assignments with distinct keys, a key holds its assigned value if it was assigned, and its old value otherwise. |
| Dict.AssignKeys | publish.py:353-371 | After the assignments, existing keys keep their positions and new keys follow in the order they were assigned. |
| PyRepr.QuoteFor | publish.py:243 | `repr` quotes with `"` exactly when the text holds a `'` and no `"`, and with `'` otherwise. |
| PyRepr.Hex | publish.py:243 | A code written by `\x`, `\u` or `\U` has exactly the width asked for. |
| PyRepr.HexRoundTrip | publish.py:243 | Reading back the hexadecimal digits of a number below `16^w` gives the number. |
| PyRepr.HexValueSnoc | publish.py:243 | One more digit multiplies the value read so far by 16 and adds the digit. |
| PyRepr.DigitValue | publish.py:243 | A hexadecimal digit, in either case, has a value below 16. |
| PyRepr.Escape | publish.py:243 | Every character is written as at least one character: the quote and the backslash escaped, tab, newline and return in short form, hidden characters as `\xhh`, `\uhhhh` or `\Uhhhhhhhh`, others as they are. |
| PyRepr.Repr | publish.py:243 | `repr(s)` starts and ends with the quote `QuoteFor` picks. |
| PyRepr.CodeStep | publish.py:243 | A hexadecimal escape of the right width reads back as the character its digits name. |
| PyRepr.CodeRoundTrip | publish.py:243 | The `w` hexadecimal digits of a character below `16^w` name that character. |
| PyRepr.EscapeRoundTrip | publish.py:243 | Every escape `repr` writes for one character, with either quote, reads back as that character. |
| PyRepr.EscapedRoundTrip | publish.py:243 | The escaped text reads back as the text. |
| PyRepr.ReprRoundTrip | publish.py:243 | Evaluating the literal `repr` writes gives back the string: the escaping loses nothing. |
| PyRepr.PlainEscaped | publish.py:243 | Text with no quote character, no backslash and nothing hidden is written unchanged. |
| PyRepr.ReprPlain | publish_gui.py:137 | Plain text without an apostrophe is written between single quotes, as it is. |
| PyRepr.ReprApostrophe | publish_gui.py:137 | Plain text with an apostrophe and no double quote is written between double quotes, apostrophes unescaped. |
| Yaml.IntStr | publish.py:270 | `str()` of an int is non-empty and has no whitespace at either end. |
| Yaml.Decimal | publish.py:270 | The decimal digits of a natural number are non-empty and all ASCII digits. |
| Yaml.PyStrOfScalar | publish.py:243 | `str()` of a string is the string itself; `str()` of an int is already stripped. |
| Yaml.PyStrOfStrList | publish_gui.py:137 | `str()` of a list shows a string element as `repr` writes it, so `str(["it's"])` is `["it's"]`. |
| Yaml.PyStr | publish.py:243 | `str(v)`: `None`, `True`/`False`, the decimal int, a string as itself, and lists and dicts with their elements and keys as `repr` writes them. Its properties are `PyStrOfScalar` and `PyStrOfStrList`. |
| Yaml.Show | publish.py:243 | `str()` or `repr()` of a value; they differ on strings only. Properties as for `PyStr`. |
| Yaml.Truthy | publish.py:353 | Python's `bool(v)`: `None`, `False`, `0`, the empty string, list and dict are false, every other value is true. Used by `HeaderFill.CompletionFacts`. |
| Yaml.MissingOrFalsy | publish.py:353 | `"key" not in meta or not meta["key"]`: the key is absent, or its value is false. Used by `HeaderFill.CompletionFacts`. |
| Yaml.StrList | publish.py:333 | The list value built for `tags`/`categories` holds the names in order, as strings. |
| Paths.Parent | publish.py:97 | `p.parent` drops the last component; the parent of the root is the root. |
| Paths.Parts | publish.py:98 | The components `pathlib` keeps when it parses a reference: never empty, never `.`, never containing `/`. |
| Paths.RefName | publish.py:98 | `Path(ref).name`: the last component `pathlib` keeps, or empty for the root. |
| Paths.Normalize | publish_gui.py:659 | `resolve()` leaves no `..` component. |
| Paths.NormalizeIdempotent | publish_gui.py:659 | Resolving a resolved path changes nothing. |
| Paths.LastDot | publish.py:193 | The last `.` of a name, if any. |
| Paths.SuffixStart | publish.py:193 | `Path.suffix` starts at the last dot, and only when that dot is neither the first nor the last character. |
| Paths.StemSuffix | publish.py:168-171 | Stem and suffix split a name without loss. A suffix is a dot followed by dot-free text, and a name with a suffix has a non-empty stem. |
| Paths.JoinPath | publish.py:102 | `md_dir / image_ref`: an absolute reference replaces the directory, a relative one is appended to it. |
| Paths.IsFile | publish.py:103 | `is_file()` on the candidate as written: every `..` in it is looked up in a directory (the root, or an existing path that is not a file), and the path it names is a file of the file system. Used by `AssetResolver.FindImageFile`. |
| Paths.ResolvedIsFile | publish_gui.py:504 | On a path without `..`, such as a resolved one, `is_file()` is exactly membership in the file system. |
| Paths.DotDotBlocks | publish.py:103 | A `..` after a folder that is missing or is a file makes `is_file()` false, whatever file the lexical form names. |
| Paths.Exists | publish_gui.py:660 | `exists()`: the resolved path is a file or a directory on the way to one. Used by `PublishApp.Validate`. |
| Paths.Suffix | publish.py:193 | `Path.suffix`: the name from its last dot when that dot is neither first nor last, else empty. Its shape is `Paths.StemSuffix`. |
| Paths.Stem | publish.py:168 | `Path.stem`: the name without its suffix. Its shape is `Paths.StemSuffix`. |
| StrOrder.LessIrreflexive | publish_gui.py:794 | Python's string order is irreflexive. |
| StrOrder.LessTransitive | publish_gui.py:794 | Python's string order is transitive. |
| StrOrder.LessTotal | publish_gui.py:794 | Any two different strings are ordered one way and only one way. |
| StrOrder.LeastExists | publish_gui.py:794 | A finite non-empty set of strings has a least element. |
| StrOrder.Sorted | publish_gui.py:794 | `sorted(selected_tags)` is strictly ascending and holds exactly the set's elements. |
| StrOrder.AscendingUnique | publish_gui.py:794 | Only one ascending list holds exactly a given set, so `sorted()` is determined by the set. |
| StrOrder.SortSet | publish_gui.py:794 | Repeatedly taking the least remaining element computes `sorted()`. |
| FrontMatter.FirstBlockUnique | publish.py:66 | Only one block is reached before every other, so the match `re.match` returns is determined. |
| FrontMatter.WsEnd | publish.py:66 | A greedy `\s*` stops at the end of the input or at the first non-whitespace character. |
| FrontMatter.WsEndSpaces | publish.py:66 | Everything a greedy `\s*` passes over is whitespace. |
| FrontMatter.LastNewline | publish.py:66 | A newline found in a range lies in that range. |
| FrontMatter.LastNewlineLast | publish.py:66 | Every newline in the range is found, at or before the one returned: the greedy `\s*\n` takes the last newline of the run. |
| FrontMatter.LastNewlineFrom | publish.py:66 | A newline at the start of a range is the one taken unless a later newline follows. |
| FrontMatter.CloseAt | publish.py:66 | A closing delimiter match at `k` is `\n---`, then whitespace, ending in a newline. |
| FrontMatter.CloseAtSpaces | publish.py:66 | The closing delimiter's run between `---` and its final newline is whitespace. |
| FrontMatter.CloseAtComplete | publish.py:66 | A closing delimiter is found at `k` whenever one can end there, and it ends at the last newline it can reach. |
| FrontMatter.FindClose | publish.py:66 | The lazy `(.*?)`: the first position from its start where the closing delimiter matches. Its properties are `FindCloseSound`, `FindCloseFirst`, `FindCloseComplete` and `FindCloseSkip`. |
| FrontMatter.FindCloseSound | publish.py:66 | The lazy `(.*?)` stops only where a closing delimiter matches. |
| FrontMatter.FindCloseFirst | publish.py:66 | No closing delimiter matches before where the lazy `(.*?)` stops: it stops at the first close. |
| FrontMatter.FindCloseComplete | publish.py:66 | The lazy search finds a closing delimiter if there is one at or after its start. |
| FrontMatter.FindCloseSkip | publish.py:66 | The lazy search passes over every position where no closing delimiter matches. |
| FrontMatter.OpenedBlock | publish.py:66 | An opening newline after `---` and whitespace, followed by a closing delimiter, gives a block match. |
| FrontMatter.OpenedAt | publish.py:66 | The match opened at a newline: the group starts after it and stops at the first close, and the match ends where that close ends. |
| FrontMatter.TryOpen | publish.py:66 | The opening greedy `\s*\n` backtracking from the last newline of the run to earlier ones, until the lazy group finds a close. Its properties are `TryOpenHit`, `TryOpenMiss`, `TryOpenOpens` and `TryOpenLatest`. |
| FrontMatter.TryOpenHit | publish.py:66 | Backtracking takes the last newline of the run when the lazy group finds a close after it. |
| FrontMatter.TryOpenMiss | publish.py:66 | When the lazy group finds no close after the last newline, backtracking moves to the newlines before it. |
| FrontMatter.TryOpenOpens | publish.py:66 | The opening newline backtracking settles on lies in the range searched, and a close follows it. |
| FrontMatter.TryOpenLatest | publish.py:66 | Backtracking never passes over an opening newline that a close follows: it settles on the latest one. |
| FrontMatter.OpenedFirst | publish.py:66 | Started at a block's own opening newline, the lazy group finds a close, and that match is reached before the block. |
| FrontMatter.OpenedAtBlock | publish.py:66 | A newline in the whitespace run after `---` that a close follows opens a block match. |
| FrontMatter.OpenInRun | publish.py:66 | Every block's opening newline lies in the whitespace run after `---`. |
| FrontMatter.TryOpenBlock | publish.py:66 | The search's match is reached before any given block. |
| FrontMatter.TryOpenOver | publish.py:66 | The search's match is reached before a block whose opening newline is reached before it. |
| FrontMatter.TryOpenAll | publish.py:66 | Whenever a block exists the search finds a match, and that match is reached before every block. |
| FrontMatter.TryOpenBest | publish.py:66 | The search finds no match exactly when no block exists. What it finds is the block Python's backtracking returns: latest opening newline, then first close, then longest closing whitespace run. |
| FrontMatter.MatchBlock | publish.py:66-67 | `re.match` finds nothing exactly when no block exists. Otherwise it returns the block reached first: the latest opening newline, then the shortest group, then the longest closing run. |
| FrontMatter.Parse | publish.py:61-78 | No block: `(None, text)` with the text unchanged. With a block: the block is the one `re.match` returns, the body is the text after it, and the header is its group loaded as a mapping. |
| FrontMatter.ParseMatched | publish.py:66-77 | Once the match is known, the header is its group loaded as a mapping and the body is the text after it. |
| FrontMatter.ParseFirstClose | publish.py:66-77 | With two `---` lines after the header, the group stops at the first: `"---\na\n---\nb\n---\n"` loads `a` and keeps `b\n---\n` as the body. |
| FrontMatter.ParseMalformedBlock | publish.py:69-77 | A block that fails to load or loads as a non-mapping gives the empty header `{}`, never `None`. |
| FrontMatter.Swallowed | publish.py:66 | What the closing `\s*\n` takes from the start of the body is part of the body. |
| FrontMatter.SwallowedNone | publish.py:66 | The closing `\s*\n` takes nothing from the body exactly when the body's leading whitespace run holds no newline. |
| FrontMatter.CloseRun | publish.py:66 | After the closing `---\n`, the closing `\s*\n` ends at the last newline of the body's leading whitespace run. |
| FrontMatter.CloseAfterYaml | publish.py:66-85 | In dumped text the closing delimiter starts right after the YAML text and ends where the body's swallowed part ends. |
| FrontMatter.NoCloseInsideYaml | publish.py:66-85 | No closing delimiter matches inside YAML text that has no line starting with `---`. |
| FrontMatter.DumpedOpen | publish.py:66-85 | In dumped text the search opens at the first newline and the group runs to the end of the YAML text. |
| FrontMatter.DumpedSlices | publish.py:66-85 | In dumped text the group is the YAML text without its final newline, and the body after the match is the body minus what is swallowed. |
| FrontMatter.MatchDumped | publish.py:85 | In dumped text the opening delimiter, the group and the closing delimiter sit where `dump_front_matter` put them. |
| FrontMatter.ParseDumped | publish.py:61-85 | Parsing dumped text loads the YAML text without its final newline and returns the body minus what is swallowed. |
| FrontMatter.Dump | publish.py:81-85 | `dump_front_matter`: `---`, a newline, the YAML text, `---`, a newline, the body. Its inverse is `RoundTrip`. |
| FrontMatter.RoundTrip | publish.py:66-85 | Take YAML text that ends with a newline, starts with a non-whitespace character, has no line starting with `---`, and loads back as the header. Parsing its dump gives back the header exactly. The body comes back minus what the closing delimiter swallows. |
| FrontMatter.RoundTripBody | publish.py:66-85 | The body comes back intact exactly when its leading whitespace run holds no newline. |
| AssetResolver.Candidates | publish.py:97-131 | The 27 paths `find_image_file` tries, in order. Its properties are `CandidateOrder` and `CandidateBlocks`. |
| AssetResolver.InFolders | publish.py:112-115 | The five attachment-folder candidates of a directory, in `OBSIDIAN_ATTACHMENT_NAMES` order. |
| AssetResolver.FirstFile | publish.py:102-133 | The first candidate that is a file. Every candidate before it is not a file. `None` exactly when no candidate is a file. |
| AssetResolver.FindImageFile | publish.py:92-133 | `find_image_file` returns a file: the first of the 27 candidates, as written, that `is_file()` accepts (`Paths.IsFile`). It returns `None` exactly when no candidate is a file. |
| AssetResolver.CandidateOrder | publish.py:97-131 | The 27 candidates, in order, are: the reference relative to the note's folder; the bare name there; the five attachment folders there; the same in the parent; then in the parent, the grandparent and the great-grandparent. |
| AssetResolver.CandidateBlocks | publish.py:102-131 | Each block of five candidates is one attachment-folder search. |
| AssetResolver.AncestorsUp | publish.py:125-127 | The three ancestors the loop climbs to are the parent, the grandparent and the great-grandparent. |
| AssetResolver.FoundBesideNote | publish.py:102-109 | A file named like the reference, next to the note, is found unless the reference itself names an existing file. |
| AssetStore.Stamped | publish.py:168-171 | The renamed copy's name `<stem>_<stamp><suffix>`. Its shape is `AssetStore.StampedShape`. |
| AssetStore.CopyTarget | publish_gui.py:779-782 | The copy keeps the file's name unless a file of that name with a different size is there; then it takes the stamped name. Its consequences are `CollisionKeepsBoth` and `SameSizeOverwrites`. |
| AssetStore.StampedShape | publish.py:166-171 | A renamed copy keeps the stem and the suffix with the timestamp between them, and never lands on the original name. |
| AssetStore.CollisionKeepsBoth | publish_gui.py:778-784 | Two files of different sizes under one name: the second copy gets a new name, and both are in the store afterwards. |
| AssetStore.SameSizeOverwrites | publish_gui.py:778-784 | Without a size clash the copy goes under its own name and overwrites what was there, even when the contents differ. |
| AssetStore.CopyTwice | publish_gui.py:778-784 | Copying the same image again with the same timestamp picks the same name and leaves the store as it was. |
| AssetStore.Store.constructor | publish_gui.py:730 | The store starts with the files already in the asset directory. |
| AssetStore.Store.CopyImage | publish_gui.py:778-784 | `_copy_image` returns the chosen destination name; that one entry now holds the source bytes, and every other entry is unchanged. |
| RefSyntax.FindFrom | publish.py:148 | The first occurrence of a character at or after a position, or the fact that there is none. |
| RefSyntax.FindFromAt | publish.py:148 | Where the search stops is determined by the characters alone. |
| RefSyntax.MatchStd | publish.py:148 | A standard-syntax match lies inside the text. |
| RefSyntax.StdRefAt | publish.py:148 | The standard pattern, declaratively: `![`, an alt text without `]`, `](`, a non-empty path without `)` that does not start with `http://` or `https://`, then `)`, found at the position. Used by `MatchStdSpec`. |
| RefSyntax.MatchStdSpec | publish.py:148 | The standard matcher answers with a match exactly when the pattern `!\[([^\]]*)\]\((?!https?://)([^)]+)\)` matches at that position, and with the same groups. |
| RefSyntax.StdPieces | publish.py:148 | A standard match, as slices: `![`, alt, `](`, path, `)`. |
| RefSyntax.StdRefChars | publish.py:148 | The characters a standard match fixes: the brackets, and the first `]` and `)` after the groups start. |
| RefSyntax.StdFound | publish.py:148 | When the scanner finds the brackets, that is the one and only match at the position. |
| RefSyntax.NoStdRef | publish.py:148 | When the scanner gives up, no standard match exists at the position. |
| RefSyntax.FindStop | publish.py:184 | The first `]` or `\|` at or after a position, where the lazy target group ends. |
| RefSyntax.MatchWiki | publish.py:184 | A wiki match lies inside the text. |
| RefSyntax.WikiRefAt | publish.py:184 | The wiki pattern, declaratively: `![[`, a non-empty target without `]` or `\|`, an optional `\|` alias without `]`, then `]]`, found at the position. Used by `MatchWikiSpec`. |
| RefSyntax.MatchWikiSpec | publish.py:184 | The wiki matcher answers with a match exactly when `!\[\[([^\]\|]+?)(\|[^\]]*)?\]\]` matches at that position, with the same groups. So the lazy group is deterministic. |
| RefSyntax.WikiPieces | publish.py:184 | A wiki match, as slices: `![[`, target, the optional `\|alias`, `]]`. |
| RefSyntax.WikiRefChars | publish.py:184 | The characters a wiki match fixes. |
| RefSyntax.TargetStop | publish.py:184 | A target free of `]` and `\|` ends exactly where the lazy first group stops. |
| RefSyntax.WikiUnique | publish.py:184 | A wiki match at a position has exactly the groups the scanner reads off. |
| RefSyntax.WikiFound | publish.py:184 | When the scanner finds the brackets, that is the one and only wiki match at the position. |
| RefSyntax.NoWikiRef | publish.py:184 | When the scanner gives up, no wiki match exists at the position. |
| ImageMigrator.SkippedPath | publish.py:156-161 | A standard path is kept when it starts with `/assets/` or `/images/`; the GUI also keeps `http://` and `https://` (publish_gui.py:737-738). Used by `StdAction`. |
| ImageMigrator.IsImageRef | publish.py:193-194 | A wiki target is an image when the lower-cased suffix of its file name is in `IMAGE_EXTENSIONS`. Used by `WikiAction`. |
| ImageMigrator.WikiAlt | publish.py:190 | The alt text of a wiki reference: the stripped alias after `\|`, or else the stem of the target's file name. Used by `WikiAction`. |
| ImageMigrator.Rewritten | publish.py:175 | The replacement `![alt](/assets/<name>)`, the same in both passes (publish.py:208). `Step` emits it for every copied image. |
| ImageMigrator.Resolve | publish.py:163-178 | A found reference is copied from the file `find_image_file` returned. A reference whose file is not found is kept and reported. |
| ImageMigrator.StdAction | publish.py:150-178 | The standard replacer keeps the match exactly when the stripped path starts with `/assets/` or `/images/`. In the GUI `http://` and `https://` are also kept. Otherwise the stripped path is looked up, with the alt text unchanged. |
| ImageMigrator.WikiAction | publish.py:186-211 | The wiki replacer keeps the match exactly when the lower-cased suffix of the stripped target is not in `IMAGE_EXTENSIONS`; otherwise it looks it up. |
| ImageMigrator.RefAt | publish.py:180 | A reference found at a position lies inside the text, and a copy is always of an existing file. |
| ImageMigrator.Scan | publish.py:180 | The scan table holds, at each position, the pattern's match there and the replacer's decision about it. |
| ImageMigrator.Pass | publish.py:180 | One `re.sub` pass: the steps from a position to the end, their text joined, the store threaded through, copies counted and warnings kept in order. Its properties are `PassCopiesPlainText`, `PassUntouched` and `PassOnlyAddsCopies`, and `RunPass` computes it. |
| ImageMigrator.Step | publish.py:180 | One step of `re.sub` always advances. |
| ImageMigrator.PassStep | publish.py:180 | A pass is its first step followed by the pass from where that step ends. |
| ImageMigrator.StepPlain | publish.py:180 | Where no reference starts, one character is copied through. |
| ImageMigrator.PassCopiesPlainText | publish.py:180 | Text where no reference starts is copied through unchanged: text outside the matches is not altered. |
| ImageMigrator.StepNoCopy | publish.py:176-178 | A reference that is kept or not found is emitted as its own matched text. |
| ImageMigrator.PassUntouched | publish.py:176-211 | When no reference leads to a copy, the pass returns the text byte for byte, leaves the store untouched and counts nothing. |
| ImageMigrator.StepOnlyAddsCopies | publish.py:172 | A step never removes a store entry, and anything it writes is the bytes of a vault file. |
| ImageMigrator.PassOnlyAddsCopies | publish.py:136-220 | A pass only adds to the store, and every entry it writes holds the bytes of a vault file. |
| ImageMigrator.ApplyStep | publish_gui.py:734-767 | Applying the replacer in place does exactly what the specification step says: the same text, next position, store, count and warnings. |
| ImageMigrator.RunPass | publish_gui.py:749 | The loop over the text computes the specified pass: the same text, store, count and warnings. |
| ImageMigrator.Migrate | publish.py:136-220 | The standard pass over the note, then the wiki pass over its output, with the store of the first pass carried into the second. `MigrateImages` computes it. |
| ImageMigrator.MigrateImages | publish.py:136-220 | `migrate_images` / `_migrate_images` is the standard pass followed by the wiki pass over its output. Copies are counted across both passes and warnings kept in order. |
| TagIndex.Mentions | publish.py:239-249 | The names one post contributes: each list item's stripped `str()`, a string's stripped self, blanks dropped, and nothing for a missing or empty header or any other value. Its property is `MentionsClean`. |
| TagIndex.Tally | publish.py:245 | `tag_count`, built by one `get(s, 0) + 1` per mention. Its properties are `TallyKeys` and `TallyCounts`. |
| TagIndex.Index | publish.py:227-253 | The ranked names of the tally of all posts' mentions. Its properties are `IndexNames` and `IndexOrder`. |
| TagIndex.Clean | publish.py:243-245 | A name is counted stripped, and only when it is non-empty. |
| TagIndex.CleanIsClean | publish.py:243-245 | A counted name is a clean name. |
| TagIndex.ItemNamesClean | publish.py:242-245 | Every name a list value contributes is clean. |
| TagIndex.MentionsClean | publish_gui.py:122-165 | Every name any post contributes is stripped and non-empty. |
| TagIndex.TallyKeys | publish.py:245 | The count dict lists each mentioned name once, in first-seen order. |
| TagIndex.TallyCounts | publish.py:245 | The count dict holds, for each name, the number of times it is mentioned. |
| TagIndex.Insert | publish.py:252 | One step of a stable sort by descending count: the entry goes after every entry counted at least as often. Its properties are `InsertPos`, `InsertShape`, `InsertPerm`, `InsertDistinct`, `InsertDescending` and `InsertStable`. |
| TagIndex.SortByCount | publish.py:252 | `sorted(tag_count.items(), key=count, reverse=True)` as insertion of each entry in dict order. Its property is `SortRanks`. |
| TagIndex.Ranked | publish.py:252-253 | The names of the sorted entries. Its properties are `RankedKeys` and `RankedOrder`. |
| TagIndex.InsertPos | publish.py:252 | A stable insertion places an entry after every entry counted at least as often. |
| TagIndex.InsertShape | publish.py:252 | Insertion keeps the entries before and after the insertion point. |
| TagIndex.SortRanks | publish.py:252 | The insertion sort sorts by descending count, stably, as a permutation of the dict's entries. |
| TagIndex.InsertStep | publish.py:252 | Inserting the last entry into a ranking of the rest ranks all entries. |
| TagIndex.InsertPerm | publish.py:252 | Insertion adds exactly the inserted entry. |
| TagIndex.InsertDistinct | publish.py:252 | Insertion keeps the entries distinct. |
| TagIndex.InsertDescending | publish.py:252 | Insertion keeps the counts descending. |
| TagIndex.InsertStable | publish.py:252 | After insertion, entries with equal counts keep their order of first appearance. |
| TagIndex.InsertStablePair | publish.py:252 | Stability, for one pair of positions. |
| TagIndex.RankedKeys | publish.py:252-253 | A ranking lists exactly the names of the dict, each once. |
| TagIndex.IndexNames | publish_gui.py:122-165 | The index holds exactly the mentioned names, each once. |
| TagIndex.RankedOrder | publish.py:252-253 | A ranking of the tally orders names by mention count, ties by first mention. |
| TagIndex.IndexOrder | publish_gui.py:142 | The collectors list names by descending number of mentions; equally frequent names come in the order they were first met. |
| TagIndex.TallyClean | publish.py:247-249 | Counting a string value adds one to its stripped name, or nothing when it is blank. |
| TagIndex.CountOne | publish.py:247-249 | One `tag_count[s] = tag_count.get(s, 0) + 1` step counts the stripped name once more. |
| TagIndex.CountItems | publish.py:241-245 | The inner loop counts `str(t).strip()` of every list element. |
| TagIndex.CollectNames | publish_gui.py:122-165 | `collect_existing_tags` (field `tags`) and `collect_existing_categories` (field `categories`) compute the index. |
| TagSelection.ParseInt | publish.py:291 | `int(part)` succeeds only on text that starts with a digit or a sign. |
| TagSelection.DecimalValue | publish.py:291 | The digits `str(n)` writes read back as `n`. |
| TagSelection.ParseIntStr | publish.py:270-291 | `int(str(i)) == i`: every number shown in the listing parses back to itself. |
| TagSelection.DecimalDigits | publish.py:291 | `str(n)` is a digit run that `int()` accepts. |
| TagSelection.PiecesClean | publish.py:286 | Every part kept is a clean name. |
| TagSelection.Parts | publish.py:286 | The parts are stripped and non-empty. |
| TagSelection.Choose | publish.py:290-301 | A part is out of range only when the number it spells does not lie in `1..len(existing)`. |
| TagSelection.Picks | publish.py:288-301 | The tags the parts name, one per part that names one, in order. Its properties are `PicksSnoc` and `PicksMembers`. |
| TagSelection.Selection | publish.py:282-306 | The order-keeping de-duplication of the tags the typed parts name. Its properties are `SelectionMembers` and `SelectionOrder`. |
| TagSelection.Ignored | publish.py:297 | The out-of-range numbers the parts spell, in order: the warnings `interactive_tags` prints. Its property is `SelectTags`. |
| TagSelection.PicksSnoc | publish.py:288-301 | One more part adds the tag it names and the warning it draws. |
| TagSelection.BlankParts | publish.py:282-283 | A blank line has no parts. |
| TagSelection.SelectTags | publish.py:282-306 | `interactive_tags` after `input()` returns the selection for the line, and warns about the out-of-range numbers in order. |
| TagSelection.TakePart | publish.py:290-301 | The loop body adds the tag a part names unless it is already selected, and reports an out-of-range number. |
| TagSelection.BlankSelectsNothing | publish.py:282-283 | An empty or blank line selects nothing and draws no warning. |
| TagSelection.PicksMembers | publish.py:288-301 | A tag is named exactly when some part chooses it. |
| TagSelection.PicksSound | publish.py:288-301 | Every tag named comes from some part. |
| TagSelection.PicksComplete | publish.py:288-301 | Every tag a part chooses is named. |
| TagSelection.SelectionOrder | publish.py:294-301 | The selection has no duplicates and lists tags in the order they are first named. |
| TagSelection.SelectionMembers | publish.py:288-301 | A tag is selected exactly when some part names it. Every selected tag is a listed tag or a new clean name that is not a number. |
| TagSelection.ChooseOrigin | publish.py:290-301 | A part chooses a listed tag, or itself when it is not a number. |
| TagSelection.PartsOfJoin | publish.py:286 | Typing clean, comma-free names separated by commas gives back those names as parts. |
| TagSelection.PiecesOfClean | publish.py:286 | Clean pieces are kept as they are. |
| TagSelection.PicksOfNames | publish.py:298-301 | Parts that are not numbers each choose themselves. |
| TagSelection.SelectByName | publish.py:282-306 | Typing distinct new tag names separated by commas selects exactly those names, in order. |
| TagSelection.ChooseByNumber | publish.py:269-295 | Typing the number shown beside a listed tag selects that tag. |
| HeaderOps.Keeps | publish.py:353-371 | A conditional assignment to one key leaves every other key alone. |
| HeaderOps.StepGet | publish.py:353-371 | A conditional assignment changes the value of its own key only. |
| HeaderOps.Puts | publish.py:353-371 | A conditional assignment gives its key the value assigned. |
| HeaderOps.ThreeGets | publish.py:327-345 | After three conditional assignments a key holds the last value assigned to it, or its old value. |
| HeaderOps.ThreeSteps | publish.py:332-345 | Three conditional assignments in a row are the assignment list they make. |
| HeaderOps.ThreeKeys | publish.py:332-345 | The keys three conditional assignments name are the ones whose guard holds, in order. |
| HeaderFill.Complete | publish.py:353-377 | The CLI leaves a header alone exactly when its title and date are truthy, `updated` is present, and its tags are truthy or no tags are chosen. Its properties are `CompletionEmpty` and `CompletedComplete`. |
| HeaderFill.NewHeader | publish.py:327-345 | The header built for a note without one. Its properties are `NewHeaderFacts` and `NewHeaderComplete`. |
| HeaderFill.Completion | publish.py:353-371 | The assignments the four `if`s of the `else` branch make. Its properties are `CompletionFacts`, `CompletionKeys` and `CompletionEmpty`. |
| HeaderFill.Completed | publish.py:323-371 | The header `ensure_front_matter` writes: the new header, or the existing one with the completion made. Its property is `CompletedComplete`. |
| HeaderFill.Ensured | publish.py:313-377 | What `ensure_front_matter` returns: the content when the header is complete, else the completed header dumped over the body. Its properties are `EnsureIdempotent` and `CompletionEmpty`, and `EnsureFrontMatter` computes it. |
| HeaderFill.EnsureFrontMatter | publish.py:313-377 | `ensure_front_matter` returns the specified text: a new header when there is none, the original content byte for byte when the header is complete, and otherwise the completed header dumped over the body. |
| HeaderFill.FillIn | publish.py:349-372 | The `else` branch makes exactly the completion assignments, and `changed` is set exactly when there are any. |
| HeaderFill.CompletionSteps | publish.py:353-371 | The four `if`s, applied one after another, are the completion assignments. |
| HeaderFill.FourSteps | publish.py:353-371 | Four conditional assignments in a row are the assignment list they make. |
| HeaderFill.AppendStep | publish.py:332-345 | A conditional assignment to an absent key appends it. |
| HeaderFill.ThreeAppends | publish.py:332-345 | Three conditional assignments of new, different keys append them in order. |
| HeaderFill.FreshHeader | publish.py:327-345 | The header built for a note without one is the specified new header. |
| HeaderFill.AddExtras | publish.py:332-345 | `tags`, `categories` (as `[category]`) and `excerpt` are appended in that order, each only when non-empty. |
| HeaderFill.CompletionEmpty | publish.py:373-377 | The CLI changes nothing exactly when the header is complete. |
| HeaderFill.NewHeaderFacts | publish.py:327-345 | A new header has the keys `title`, `date`, `updated`, then whichever of `tags`, `categories`, `excerpt` are non-empty. `date` and `updated` both hold the one timestamp. |
| HeaderFill.AppendGets | publish.py:332-345 | Entries appended under new, different keys can each be read back, and the old keys are untouched. |
| HeaderFill.CompletionDistinct | publish.py:353-371 | No key is assigned twice by the completion. |
| HeaderFill.CompletionFacts | publish.py:349-372 | `title`/`date` are filled only when missing or falsy, and `updated` only when absent: an empty `updated` is kept. `tags` are set only when missing or falsy and the selection is non-empty. Every other key is untouched. |
| HeaderFill.CompletionKeys | publish.py:349-372 | Existing keys keep their places; added keys follow in the order `title`, `date`, `updated`, `tags`. |
| HeaderFill.ChainGet | publish.py:353-371 | After four conditional assignments a key holds the last value assigned to it, or its old value. |
| HeaderFill.CompletedComplete | publish.py:313-377 | With a non-empty title and timestamp, the header the CLI writes is complete. |
| HeaderFill.NewHeaderComplete | publish.py:327-345 | A header the CLI builds from nothing is complete. |
| HeaderFill.CompletionComplete | publish.py:349-372 | A header the CLI fills in is complete. |
| HeaderFill.FilledComplete | publish.py:353-371 | A header whose title, date, updated and tags hold what the completion gives them is complete. |
| HeaderFill.EnsureIdempotent | publish.py:313-377 | `ensure_front_matter` run on its own output, at any later time and with the same answers, returns that output unchanged. This holds when the header it wrote reads back as written. |
| GuiHeader.GuiHeader | publish_gui.py:796-813 | The header `_build_final_content` writes: the loaded one, or `{}`, with the GUI assignments made. Its properties are `GuiFacts` and `GuiKeyOrder`. |
| GuiHeader.Built | publish_gui.py:788-815 | What `_build_final_content` returns: that header dumped over the body. Its property is `GuiRoundTrip`. |
| GuiHeader.ReadForm | publish_gui.py:790-793 | Every entry is stripped, and an empty date falls back to now, so with a clock the date is never empty. |
| GuiHeader.GuiAssignments | publish_gui.py:802-813 | The GUI's guarded assignments, title, date and updated, then categories, tags and excerpt. Its properties are `GuiFacts`, `GuiAssignedKeys` and `GuiDistinct`. |
| GuiHeader.GuiFill | publish_gui.py:802-813 | The six `if`s of `_build_final_content` make exactly the GUI's assignment list. |
| GuiHeader.GuiSteps | publish_gui.py:802-813 | The six `if`s, applied one after another, are the GUI assignments. |
| GuiHeader.FrontGet | publish_gui.py:802-807 | After the first three assignments, each key holds its assigned value or its old one. |
| GuiHeader.BackGet | publish_gui.py:808-813 | After the last three assignments, each key holds its assigned value or its old one. |
| GuiHeader.GuiGet | publish_gui.py:802-813 | After all six assignments, each key holds its assigned value or its old one. |
| GuiHeader.GuiFacts | publish_gui.py:802-813 | A non-empty title, date, category and excerpt overwrite. `updated` is set to the date only when absent. `tags` becomes the sorted selection when non-empty. Every other key passes through. |
| GuiHeader.GuiAssignedKeys | publish_gui.py:802-813 | The keys the GUI assigns are, in order, those of `title`, `date`, `updated`, `categories`, `tags`, `excerpt` whose guard holds. |
| GuiHeader.GuiDistinct | publish_gui.py:802-813 | No key is assigned twice. |
| GuiHeader.FrontDistinct | publish_gui.py:802-807 | The first three assignments name different keys, none of the last three. |
| GuiHeader.BackDistinct | publish_gui.py:808-813 | The last three assignments add keys that are new and different. |
| GuiHeader.GuiKeyOrder | publish_gui.py:796-815 | Existing keys keep their position; new keys follow in assignment order; a missing header starts as `{}`. |
| GuiHeader.GuiDated | publish_gui.py:791-807 | With a clock, the written header always has a non-empty `date` and always has `updated`. |
| GuiHeader.GuiRoundTrip | publish_gui.py:788-815 | The GUI always re-dumps the header, and it parses back as the header built. |
| PublishApp.ReadOf | publish_gui.py:502-510 | Reading a path that is not a file (a directory) always fails; reading a file gives what the read gives. |
| PublishApp.Resolved | publish_gui.py:659 | `Path(file_path).resolve()`: the entry joined to the working directory, with `.` and `..` removed. |
| PublishApp.IsMarkdown | publish_gui.py:663 | The lower-cased suffix of the file name is `.md` or `.markdown`. Used by `PublishApp.Validate`. |
| PublishApp.LoadedTags | publish_gui.py:545-553 | The tags loaded from a header: each list item's stripped `str()`, or a non-empty string stripped, else none. Its properties are `ListedTags` and `LoadedTagsKept`. |
| PublishApp.SafeFilename | publish.py:499 | The post name is the stem, with spaces replaced, plus `.md`. |
| PublishApp.SafeFilenameChars | publish_gui.py:703 | Every space becomes `-`, every other character (other whitespace included) stays, and no space is left. |
| PublishApp.SafeFilenameSuffix | publish.py:499 | For a non-empty stem the post's suffix is `.md`, and its stem is the source stem with spaces replaced. |
| PublishApp.Validate | publish_gui.py:655-669 | Publishing is allowed exactly when the path is non-empty, the resolved file exists, its lower-cased suffix is `.md` or `.markdown`, and the stripped title is non-empty. Each refusal names the first failed check. |
| PublishApp.LoadedTagsKept | publish_gui.py:545-553 | A note whose `tags` is a sorted list of clean names keeps that list when it is loaded and published again. |
| PublishApp.ListTags | publish_gui.py:549-551 | The stripped `str()` of every item of a `tags` list. Its property is `ListedTags`. |
| PublishApp.Names | publish_gui.py:597-610 | The names of a list, as a set. Its properties are `NamesSnoc` and `AddAll`. |
| PublishApp.ListedTags | publish_gui.py:549-551 | A `tags` list of clean names selects exactly those names. |
| PublishApp.NamesSnoc | publish_gui.py:599-610 | One more name in the list is one more element of the set. |
| PublishApp.AddAll | publish_gui.py:599-610 | The loop of `_add_new_tag` adds every name to the selection. |
| PublishApp.AddedNamesClean | publish_gui.py:593-597 | The new-tag entry only ever selects clean names, and a blank entry selects none. |
| PublishApp.App.constructor | publish_gui.py:256-260 | Nothing is selected, nothing is loaded, and no run is under way. |
| PublishApp.App.OnFileSelected | publish_gui.py:494-553 | The source becomes the resolved path. When it exists and reads as text, the text is loaded and the tags are reset to the header's. Otherwise the text and tags are unchanged. It reports whether the read raised an error that leaves the handler: exactly when the path exists and its read fails. |
| PublishApp.App.OnTagToggle | publish_gui.py:585-590 | A chip switched on adds its tag, switched off removes it; nothing else changes. |
| PublishApp.App.AddNewTag | publish_gui.py:592-612 | Every stripped, non-empty comma-separated name of the entry is added to the selection; nothing else changes. |
| PublishApp.App.OnPublishClick | publish_gui.py:650-680 | While a run is under way: nothing. When a check fails: a refusal, with nothing changed. Otherwise the source is set and reloaded unless it is the one loaded with non-empty text. If that reload raises, the click is aborted and no run starts; otherwise the run starts. A run only ever starts with a source set. |
| PublishApp.App.StartRun | publish_gui.py:671-675 | For an existing resolved source: the source is set and the file is reloaded when it is not the one loaded or its text is empty. A reload that raises aborts the start and leaves `publishing` as it was; otherwise the run starts. |
| PublishApp.App.BuildFinalContent | publish_gui.py:788-815 | `_build_final_content` returns the header rebuilt from the form and the sorted selection, dumped over the body. |
| PublishApp.App.DoPublish | publish_gui.py:682-712 | `_do_publish` migrates the images into the store, rebuilds the header and names the post `SafeFilename(stem)`. It commits under the stripped title, or the stem when the title is empty. |
| PublishApp.App.PublishDone | publish_gui.py:723-725 | The run is over; nothing else changes. |
| PublishScenario.DirectoryAborts | publish_gui.py:650-675 | Publishing the directory `v/n.md` with a title: every check passes, the reload raises, and the click ends `Aborted` without starting a run. |
| PublishScenario.DirectoryPasses | publish_gui.py:655-669 | The directory `v/n.md` exists, resolves to itself, has a Markdown suffix and, with title `T`, passes every check of the click, yet is not a file. |
| PublishScenario.ChildResolved | publish_gui.py:659 | A plain name resolved from a resolved directory is that directory's child. |
| PublishScenario.OnlyFile | publish_gui.py:504 | In a file system that holds one file, any other resolved path is not a file. |
| ResolverScenario.MissingFolderKept | publish.py:92-133 | The note `v/n.md` refers to `zz/../b/a.png` and the vault holds only `v/b/a.png`. The reference's lexical form is that file, yet `find_image_file` returns `None`, because `v/zz` does not exist. |
| ResolverScenario.ClimbKept | publish.py:92-133 | The same for any note in `v` and any relative reference with the parts `zz`, `..`, `b`, `a.png`. |
| ResolverScenario.NoneFound | publish.py:102-133 | For a note in `v` and a reference naming a plain file, the search finds nothing in that vault once the reference as written is no file. |
| ResolverScenario.OthersMiss | publish.py:107-131 | Every candidate after the first lies outside `v/b`, so none is a file. |
| ResolverScenario.ClimbsOutOfMissing | publish.py:103 | `v/zz/../b/a.png` names `v/b/a.png` lexically, but it is no file, because `v/zz` is not a directory. |
| ResolverScenario.ClimbOut | publish.py:103 | For any names, `v/zz/../b/name` is lexically `v/b/name`, yet it is no file when `v/zz` is not a directory. |
| ResolverScenario.FourParts | publish.py:98-102 | Four `/`-free pieces, none empty or `.`, joined by `/` parse back as those four parts. |

## Left out

- YAML: the `yaml.dump` / `yaml.safe_load` grammar is not modelled. `Codec` is any pair of total functions. The round-trip lemmas assume of it only what `DumpsCleanly` states.
- YAML values: dates, floats and other scalar types PyYAML can load are not modelled. Values are null, bool, int, string, list or mapping.
- YAML mapping keys are strings. Keys PyYAML loads as ints, bools or null (`1: a`, `true: b`) are not modelled, so neither is a header holding one nor `str()` of such a mapping (`{1: 'a'}`).
- File I/O: `read_text` with the UTF-8→GBK fallback, `mkdir`, `write_text`, `glob` and the metadata `shutil.copy2` keeps are not modelled.
  - What reading a file gives is a parameter (`read`): `Text` with the text UTF-8 or else GBK decodes it to, `Undecodable` when neither decodes it, or `ReadFails` when the read raises another error (a permission error, say). A directory always reads as `ReadFails`.
  - The posts the collectors read come in as a sequence of parsed headers. Posts that fail to read are absent from that sequence.
  - The vault is a map from paths to bytes. The asset directory is the `Store` class.
- The asset directory is assumed to be outside the vault `find_image_file` searches. Copies made during a migration therefore never change what a later lookup finds.
- Clock: `datetime.now()` is modelled as parameters (`now` for headers, `stamp` for renamed copies). One migration uses one timestamp for all the copies it renames.
- User interaction: `input()`, `print()` and the GUI log are modelled as parameters (`Answers`, the form's entries) and returned warning lists (references not found, out-of-range numbers).
- `ImageMigrator.MigrateImages`: the count of copied images is returned, but the summary line printed from it is not modelled.
- Git: `run_git_command`, `git_publish`, `_run_git` and `_git_publish` are process invocations. The model stops at the commit title `_do_publish` passes on.
- Widgets and threads are not modelled:
  - `TagChip`, `SectionHeader` and UI construction;
  - filling the form entries in `_on_file_selected`: the entries are parameters of the later handlers, not state;
  - `_load_existing_tags`, `_create_tag_chip`, `_update_selected_label`;
  - the worker thread. `_do_publish` and `_publish_done` are separate calls, and an exception inside a run is not modelled.
- `PublishApp.App.AddNewTag`: the model takes a chip to be shown as selected exactly when its tag is in `selected_tags`. With that, both branches of `_add_new_tag` add the name.
- The CLI's `main` flow is not modelled: argument handling, its own `.md`/`.markdown` check, and writing the post. Only its file name (`safe_filename`) is modelled.
- `int()`: Unicode digits are not accepted by `TagSelection.ParseInt`. ASCII digits, a sign and single underscores between digits are modelled.
- Paths:
  - Windows `\` separators and drive letters are not modelled; paths are `/`-separated component lists from the root.
  - `resolve()` is modelled as the removal of `.` and `..` components, without following symbolic links.
  - `Paths.IsFile`: `is_file()` checks that every `..` is looked up in a directory. The components before a plain name are not checked to be directories. In a file system where no file lies below another file, that follows from the path naming a file.
  - `exists()` holds for files and for the directories on the way to them; empty directories are not modelled.
- `PyRepr.Hidden`: which characters `repr` escapes depends on Python's Unicode database, which is not modelled. The model escapes the controls, the separators other than the space, the soft hyphen, the common format characters and the private-use areas. Unassigned code points and rarer format characters are written as they are, where Python escapes them.
- `Base.Lower`: `str.lower()` is modelled on ASCII letters and the Kelvin sign only. Those are the only characters whose lower case can make a suffix compare equal to one of the ASCII extensions checked.
- `add_blog.py`, `manage_blog.py`, `valaxy.config.ts` and `site.config.ts` are not part of this model. They are menu loops and static configuration.
- `_copy_image`: on a same-size name clash the code copies again and overwrites. The model follows the code (`AssetStore.SameSizeOverwrites`).
