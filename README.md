# scrapbox core, modelled in Dafny

This project models the pure and in-memory core of `scrapbox`, a command-line
client for the Scrapbox wiki, and proves properties of that model. It covers:

- **The document parser** (`client/syntax/parser.go`). A page's text is split
  into lines on `'\n'`. Each line has three parts: an optional run of spaces
  and tabs, an optional block marker (`>`, `code:`, `table:`), and a Kleene
  run of inline tokens. Each token is the first of seventeen regular
  expressions that matches at the cursor (math, links of nine shapes,
  internal link, image, url, bold image, bold text, tag, plain text).
  - A line callback turns the three parts into a node named `quoted_text`,
    `code_block`, `table_block` or `simple_text`. Its `indent` attribute is
    the length of the blank run, and its children are the tokens.
  - Module `Regexp` is a small leftmost-first backtracking matcher over the
    regex forms the grammar uses. Lazy `*?` tries the shortest match first;
    every other quantifier is greedy.
  - Module `Grammar` writes the seventeen patterns down as data, in the
    order the code lists them.
  - Module `Parser` holds the line callback and the two loops: the Kleene
    token loop and the line loop. Both are methods over a cursor, proved
    against recursive specification functions.
  - Module `Tokens` reads the shapes of `url` and `image` tokens off their
    patterns, and decides the ordered choice by the first character for
    plain text, tags and the code directive.
  - Module `Shadows` follows the ordered choice on two lines of the parser
    tests where an earlier pattern shadows later ones: `[<image url> <url>]`
    is one `link`, and `[[<image url>]]` is one `bold`.
- **The block constructors** (`client/syntax/{quoted,simple}_text.go`,
  `{table,code}_block.go`), in module `Nodes`. Each ranges over a node's
  children and deletes the `indent` and `missing` placeholders in place with
  `append`. Go's `range` keeps reading the original backing array while the
  deletion shifts it left. The model keeps that array as an `array<Node>`,
  with an explicit current length.
- **External links** of a page (`client/result.go`, with identical copies in
  `client/api_client.go` and `command/api_client.go`), in module `Links`. This
  is the per-line scan for `http://`/`https://`, the image-extension
  exclusion, the cut at the first space, and the bracket trim.
- **URI component encoding** (`encodeURIComponent` in both API clients), in
  module `Uri`. It is `url.QueryEscape` followed by three replacements.
  QueryEscape is specified from its definition: the unreserved characters of
  section 2.3 of RFC 3986 stay as they are, space becomes `+`, and every
  other byte is percent-encoded as in section 2.1 of RFC 3986.
- **API paths and URLs** (`buildQueryPath`, `buildPagePath`, `GetURL`,
  `trimPortFromHost`), in module `Api`.
- **Cache file names**, in module `Filenames`:
  - `EncodeFilename` of `client/cache.go` and `client/cache_repository.go`
    escapes `/ : |`;
  - the slash-only `EncodeFilename` of `command/api_client.go`;
  - `canonicalFilepath` of `command/files.go`, with `path.Join` and
    `path.Clean` modelled from their documented rules.
- **The tag filter, next-page rule and page recursion of `ExecQuery`**, over pages already
  decoded from JSON, in module `Query`.
- **The `--version` argument rewrite** of `cmd/scrapbox/cli.go`, in module
  `Cli`.

Go strings are modelled as `seq<char>`, one `char` per byte. Module `Text`
holds the `strings` functions the code calls: `Index`, `Contains`,
`Replace` with `-1`, `Join` and `ToLower`, plus `%d` formatting. Module
`Ast` holds the parse-tree node.

## Model

| member | source | states |
|---|---|---|
| `Regexp.MatchWithinLine` | client/syntax/parser.go:32-68 | a pattern that cannot cross a newline never matches past the end of the line it starts on |
| `Regexp.MatchConsumes` | client/syntax/parser.go:57-63 | a pattern with a mandatory non-empty part matches at least one character, so the token loop always advances |
| `Grammar.RulesSingleLine` | client/syntax/parser.go:31-68 | none of the seventeen token patterns can match a `'\n'` |
| `Grammar.RulesConsume` | client/syntax/parser.go:73-90 | every alternative of the token choice consumes input when it matches |
| `Grammar.ChooseFirst` | client/syntax/parser.go:73-74 | ordered choice: the chosen alternative is preceded only by alternatives that fail there, and there is no choice exactly when all of them fail |
| `Grammar.ChooseAfter` | client/syntax/parser.go:75-89 | alternatives that fail do not change the choice: skipping them gives the same result |
| `Grammar.PlainTextMatch` | client/syntax/parser.go:63 | `[^\n]+` matches from any non-newline character to the end of the line, and nowhere else |
| `Grammar.ChooseAtLineEnd` | client/syntax/parser.go:90-91 | some token matches at every position inside a line, none at a `'\n'` or at the end of the input, and a token never ends past its line |
| `Parser.RuleKinds` | client/syntax/parser.go:76-90 | there are seventeen alternatives, each named `link`, `image`, `url`, `bold`, `tag` or `text`, and only the last is the plain-text fallback |
| `Parser.TokenizeRest` | client/syntax/parser.go:91 | the Kleene loop stops exactly at the end of the line, and the values of its tokens spell out what it read |
| `Parser.TokensEnd` | client/syntax/parser.go:86-91 | the token run of a line always reaches the `'\n'` or the end of the input |
| `Parser.TokensSpell` | client/syntax/parser.go:74-91 | the token values, concatenated in order, are exactly the text the loop read, with nothing skipped or repeated |
| `Parser.TokensShape` | client/syntax/parser.go:73-85 | every token is a non-empty terminal named after one of the token kinds |
| `Parser.TextLast` | client/syntax/parser.go:63-90 | a `text` token can only be the last token of its line |
| `Parser.PlainRest` | client/syntax/parser.go:87-90 | where no structured alternative matches, the rest of the line is one `text` token |
| `Parser.ParseLine` | client/syntax/parser.go:121 | the line parser builds the callback's node and ends where the line ends |
| `Parser.Parse` | client/syntax/parser.go:127-139 | the root node holds the lines of the input in order (input without `'\r'`) |
| `Parser.IndentRun` | client/syntax/parser.go:20-22 | the indentation is the whole run of spaces and tabs at the cursor, or the `missing` node when there is none |
| `Parser.HeadKind` | client/syntax/parser.go:24-29 | the head is `quoted` exactly when the text starts with `>`, `code` with `code:`, `table` with `table:`, and missing otherwise |
| `Parser.LineIndent` | client/syntax/parser.go:94-100 | a line's `indent` attribute is the decimal count of its leading spaces and tabs, each tab counting one, and `"0"` when there are none |
| `Parser.LineKind` | client/syntax/parser.go:102-113 | after its indentation, a line starting with `>`, `code:` or `table:` is quoted text, a code block or a table block, and every other line is simple text (both directions) |
| `Parser.LineSpell` | client/syntax/parser.go:115-118 | a line is its indentation, then its marker, then its children's values in order, so the marker is never a child |
| `Parser.LineChildren` | client/syntax/parser.go:115-116 | a line's children are non-empty tokens, and only the last can be `text` |
| `Parser.PlainLine` | client/syntax/parser.go:63 | a line where no structured token starts after the marker has a single `text` child holding the rest of the line |
| `Parser.LineBody` | client/syntax/parser.go:91-93 | after the marker the line is tokenised by the same inline grammar, so `code:sample.js` gets the ordinary tokens of `sample.js` |
| `Parser.LinesCons` | client/syntax/parser.go:122 | a first line and the rest of the document parse independently: the first line's node is followed by the nodes of the rest |
| `Parser.LinesLastLine` | client/syntax/parser.go:17-18 | a non-empty document without `'\n'` is one line |
| `Parser.LinesJoin` | client/syntax/parser.go:122-124 | the document has one line node per `'\n'`-separated segment, in order, each parsed from its own text, and an empty last segment adds none |
| `Tokens.UrlShape` | client/syntax/parser.go:59 | a `url` match is `http://` or `https://`, then at least one more character, with no space, tab or newline anywhere |
| `Tokens.ImageShape` | client/syntax/parser.go:57 | an `image` match is either `https://gyazo`, any character, `com/` and a blank-free rest, or a blank-free `http(s)://` address ending in `.png`, `.gif`, `.jpg` or `.jpeg` |
| `Tokens.FirstShape` | client/syntax/parser.go:73-90 | the token the ordered choice reads has the shape of its kind when that kind is `url` or `image` |
| `Tokens.TokenShapes` | client/syntax/parser.go:73-91 | every `url` and every `image` token of the token run has that shape |
| `Tokens.LineTokenShapes` | client/syntax/parser.go:115-121 | every `url` and every `image` child of a line node has that shape |
| `Tokens.LitRuleFails` | client/syntax/parser.go:32-68 | every alternative except `image` and `text` fails where the input does not start with its first character (`h` for `url`, `#` for `tag`, `[` for the rest) |
| `Tokens.ImageFails` | client/syntax/parser.go:57 | `image` fails where the input does not start with `h` |
| `Tokens.PlainStart` | client/syntax/parser.go:63 | from a character other than `[`, `#`, `h` and `'\n'`, the rest of the line is a single `text` token |
| `Tokens.TagChoice` | client/syntax/parser.go:61 | at a `#` followed by a non-blank character other than `[`, every earlier alternative fails and `tag` takes the run of non-blank characters |
| `Tokens.TagTokens` | client/syntax/parser.go:61 | a `#` followed by a blank-free name not opening with `[` is read as one `tag` token covering the whole rest of the text |
| `Tokens.SimpleBody` | client/syntax/parser.go:93-118 | an unindented line without a block marker is a `simple_text` with indent `"0"` whose children are the tokens read from its start |
| `Tokens.DirectiveBody` | client/syntax/parser.go:102-118 | after its indentation, a line opening with `code:` or `table:` is a `code_block` or a `table_block`, its `indent` is the decimal length of the indentation, and its children are the tokens read after the marker |
| `Tokens.DirectiveLine` | client/syntax/parser.go:93-118 | when the name after such a marker starts with none of `[`, `#`, `h`, the line's one child is the `text` token holding the whole name |
| `Tokens.TagLine` | client/syntax/parser_test.go:73 | such a `#` line is a `simple_text` with indent `"0"` and the one child `tag`, the whole line |
| `Tokens.TagSample` | client/syntax/parser_test.go:73 | `#github.com/ohtomi/scrapbox` has the one child `tag` `#github.com/ohtomi/scrapbox` |
| `Tokens.CodeSample` | client/syntax/parser_test.go:164-169 | `code:sample.js` is a `code_block` with indent `"0"` and the one child `text` `sample.js` |
| `Tokens.CodeSampleSpaces` | client/syntax/parser_test.go:170-175 | three spaces and `code:sample.js` is a `code_block` with indent `"3"` and the one child `text` `sample.js` |
| `Tokens.CodeSampleTabs` | client/syntax/parser_test.go:176-181 | three tabs and `code:sample.js` is a `code_block` with indent `"3"` and the one child `text` `sample.js` |
| `Tokens.TableSample` | client/syntax/parser_test.go:210-215 | `table:sample` is a `table_block` with indent `"0"` and the one child `text` `sample` |
| `Tokens.TableSampleSpaces` | client/syntax/parser_test.go:216-221 | three spaces and `table:sample` is a `table_block` with indent `"3"` and the one child `text` `sample` |
| `Tokens.TableSampleTabs` | client/syntax/parser_test.go:222-227 | three tabs and `table:sample` is a `table_block` with indent `"3"` and the one child `text` `sample` |
| `Shadows.EarlyLinksFail` | client/syntax/parser.go:32-38 | at a `[` followed by neither `$` nor a style mark, math, both styled links and the project link fail |
| `Shadows.NestedBracketFails` | client/syntax/parser.go:40-54 | at `[[` both image links, both labeled links, the external link and the internal link fail |
| `Shadows.ImageUrlOnBracket` | client/syntax/parser.go:40 | neither branch of the image address can start at a `[` |
| `Shadows.IconFails` | client/syntax/parser.go:50 | the icon fails at a `[` with no `.icon]` after it |
| `Shadows.BoldImageMatch` | client/syntax/parser.go:66 | `[[`, then a blank-free `http://` address ending in `.png`, then `]]` is matched whole by the bold-image pattern |
| `Shadows.BoldEarlierFail` | client/syntax/parser.go:74-86 | on such a text, with no `]` before the closing `]]`, every alternative listed before the bold image fails at its start, the image and url patterns included |
| `Shadows.BoldImageChoice` | client/syntax/parser.go:73-87 | the ordered choice takes such a text whole as a bold image, ahead of the bold text that would match it too |
| `Shadows.BoldImageLine` | client/syntax/parser.go:91-118 | such a line is a `simple_text` with indent `"0"` and the one child `bold`, the whole line |
| `Shadows.BoldImageSample` | client/syntax/parser_test.go:67 | `[[http://avatars1.githubusercontent.com/u/1678258#.png]]` has the one child `bold`, the whole line |
| `Shadows.OpenLinksFail` | client/syntax/parser.go:32-38 | math, both styled links and the project link fail at `[https://` |
| `Shadows.ImageLinkMatch` | client/syntax/parser.go:40 | `[`, a blank-free `https://` address ending in `.png`, a space, a blank-free `https://` address and `]` is matched whole by the first image-link pattern |
| `Shadows.ImageLinkFirst` | client/syntax/parser.go:73-78 | at `[https://`, wherever the first image-link pattern matches it is the choice |
| `Shadows.ImageLinkChoice` | client/syntax/parser.go:73-90 | the ordered choice takes such a text whole as a link, ahead of the internal link that would match it too |
| `Shadows.ImageLinkLine` | client/syntax/parser.go:91-118 | such a line is a `simple_text` with indent `"0"` and the one child `link`, the whole line |
| `Shadows.ImageLinkSample` | client/syntax/parser_test.go:50 | `[https://avatars1.githubusercontent.com/u/1678258#.png https://avatars1.githubusercontent.com/u/1678258]` has the one child `link`, the whole line |
| `Shadows.WholeToken` | client/syntax/parser.go:91 | when the choice takes the whole rest of the text, the token run is that one token |
| `Shadows.BracketLine` | client/syntax/parser.go:93-118 | a line opening with `[` whose token run is one token has no indentation and no marker, so it is a `simple_text` with indent `"0"` and that one child |
| `Nodes.RemoveAt` | client/syntax/quoted_text.go:19 | deleting index `i` shifts the later live elements one place left and leaves the rest of the backing array as it was |
| `Nodes.Visit` | client/syntax/quoted_text.go:18-24 | one iteration of the range loop: a child that is not a placeholder leaves array, length and attributes as they were; a placeholder is removed with the shift, shortens the length by one and sets `indent`, or panics, leaving the array as it was, exactly when its index is past the current length; either way the new state has the same continuation |
| `Nodes.StripPlaceholders` | client/syntax/quoted_text.go:17-25 | the array-and-length loop computes the range semantics over the shifting backing array |
| `Nodes.Built` | client/syntax/quoted_text.go:27 | a constructor's node is named after its block, and it fails only when the range loop panics |
| `Nodes.Construct` | client/syntax/quoted_text.go:13-28 | the shared constructor body gives the node `Built` describes |
| `Nodes.NewQuotedText` | client/syntax/quoted_text.go:13-28 | `NewQuotedText` builds a node named `quoted_text` |
| `Nodes.NewSimpleText` | client/syntax/simple_text.go:13-28 | `NewSimpleText` builds a node named `simple_text` |
| `Nodes.NewTableBlock` | client/syntax/table_block.go:13-28 | `NewTableBlock` builds a node named `table_block` |
| `Nodes.NewCodeBlock` | client/syntax/code_block.go:13-28 | `NewCodeBlock` builds a node named `code_block` |
| `Nodes.StripNone` | client/syntax/simple_text.go:14-25 | with no placeholder the children are unchanged and the attributes are empty |
| `Nodes.StripOne` | client/syntax/simple_text.go:17-25 | one placeholder is removed and the other children keep their order; the `indent` attribute is the length of an `indent` child's value, or `"0"` for `missing` |
| `Nodes.BuiltOne` | client/syntax/table_block.go:17-27 | with exactly one placeholder the constructor never panics and gives the named node without it and with its `indent` |
| `Nodes.BuiltNone` | client/syntax/code_block.go:14-27 | with no placeholder the constructor gives the named node, the children unchanged and no attributes |
| `Nodes.AdjacentPlaceholderSurvives` | client/syntax/quoted_text.go:17-22 | two placeholders side by side: the second is never inspected and stays a child |
| `Nodes.TrailingPlaceholderPanics` | client/syntax/quoted_text.go:19-22 | for `[indent " ", text "x", missing]` the range loop reaches the placeholder at index 2 when the length is already 1, so `children[i+1:]` is out of range and the constructor panics |
| `Nodes.StripAll` | client/syntax/code_block.go:17-25 | the intended stripping leaves no placeholder, never lengthens the children, and sets at most the `indent` attribute |
| `Nodes.StripAllFilters` | client/syntax/table_block.go:17-25 | the intended stripping keeps a child exactly when it is not a placeholder |
| `Nodes.StripAllOne` | client/syntax/code_block.go:18-23 | with one placeholder the intended stripping removes it and records its indentation |
| `Nodes.StripAgrees` | client/syntax/simple_text.go:17-24 | with at most one placeholder the code as written and the intended stripping give the same children and attributes |
| `Nodes.BuiltIntended` | client/syntax/simple_text.go:27 | the intended constructor names the node after its block and keeps exactly the children that are not placeholders |
| `Nodes.BuiltAgrees` | client/syntax/table_block.go:13-28 | with at most one placeholder the constructor as written builds the intended node |
| `Links.FirstContained` | client/result.go:26-33 | `match` returns a keyword the line contains, and `""` exactly when it contains none |
| `Links.MatchKeyword` | client/result.go:27-32 | the keyword loop returns the first keyword the line contains |
| `Links.FromScheme` | client/result.go:43-45 | the line is cut to start at the first occurrence of the scheme |
| `Links.CutAtSpace` | client/result.go:46-48 | the cut is a prefix with no space, stopping at the first space |
| `Links.DropBracket` | client/result.go:49-51 | the bracket trim removes at most the last character |
| `Links.Trim` | client/result.go:43-51 | the reassignments of `line` compute the scheme cut, the space cut and the bracket trim, in that order |
| `Links.ExtractLine` | client/result.go:38-52 | one line gives the link `LinkOf` describes, or nothing |
| `Links.ExtractExternalLinks` | client/result.go:35-56 | the loop appends one entry per line that gives a link, in line order |
| `Links.LinksAppend` | client/api_client.go:262-299 | the links of a concatenation are the links of each part, in order |
| `Links.LinksBound` | command/api_client.go:355-392 | there is at most one link per line |
| `Links.NoSchemeNoLink` | client/result.go:22-38 | a line containing neither `http://` nor `https://` contributes nothing |
| `Links.ImageNoLink` | client/result.go:23-41 | a line containing `.png`, `.gif`, `.jpg`, `.jpeg` or `.svg` anywhere contributes nothing |
| `Links.LinkShape` | client/result.go:42-48 | each link starts at the first occurrence of its scheme, `http://` taking precedence over `https://`, is a prefix of the line from there, and contains no space |
| `Links.DropExactly` | client/result.go:49-51 | the last character is dropped exactly when the line has `[`, the scheme and `]` in that order and the first `]` of the cut is its last character, so the link then holds no `]` |
| `Uri.HexRoundTrip` | client/api_client.go:29 | a hexadecimal digit reads back as the value it was written for |
| `Uri.EscapeInjective` | command/api_client.go:29 | different bytes get different percent-escapes |
| `Uri.EncodeFlat` | client/api_client.go:28-34 | `encodeURIComponent` escapes byte by byte: unreserved characters and parentheses stay, space becomes `%20`, every other byte becomes its `%XX` |
| `Uri.EncodeAlphabet` | command/api_client.go:28-34 | the encoding holds only unreserved characters, parentheses, `%` and hexadecimal digits, every `%` is followed by two upper-case hexadecimal digits, and in particular there is no `+`, space, `/`, `&` or `?` |
| `Uri.EncodeRoundTrip` | client/api_client.go:29-32 | decoding the encoding of any byte string gives it back |
| `Uri.EncodeAppend` | command/api_client.go:30-32 | the encoding of a concatenation is the concatenation of the encodings |
| `Uri.EncodeSpaceAndParens` | client/api_client.go:30-32 | space encodes as `%20`, and `(` and `)` stay literal |
| `Api.TrimPortFromHost` | client/api_client.go:49-55 | the host unchanged when it has no `:`, else its prefix before the first `:`; the result never holds `:` |
| `Api.PagePathParts` | client/api_client.go:45-47 | the page path is `api/pages/<project>/` followed by one segment with no `/` or `?` that decodes back to the page name |
| `Api.URLParts` | client/api_client.go:301-303 | the URL is host, `/`, project, `/`, followed by one segment that decodes back to the page name |
| `Api.QueryPathParts` | client/api_client.go:36-43 | the page listing for no tags and the search endpoint otherwise, then skip, sort and limit, then a `q` value that decodes to the space-joined tags and is empty with no tags |
| `Filenames.EncodeFilenameFlat` | client/cache_repository.go:25-30 | the three replacements in order are one character-by-character escape: `/`, `:`, `|` become `%2F`, `%3A`, `%7C`, and every other character, `%` included, is copied in order |
| `Filenames.EncodeFilenameAlphabet` | client/cache.go:124-129 | the encoded name holds no `/`, `:` or `|`, and is two characters longer per escaped character |
| `Filenames.EncodeFilenameIdempotent` | client/cache_repository.go:26-28 | encoding an encoded name changes nothing |
| `Filenames.EncodeFilenameCollides` | client/cache.go:125-128 | the encoding is not reversible: `a/b` and `a%2Fb` encode alike |
| `Filenames.EncodeSlashFlat` | command/api_client.go:57-59 | the slash-only encoding turns each `/` into `%2F` and copies every other character |
| `Filenames.EncodeSlashProperties` | command/files.go:12 | the slash-only encoding holds no `/`, grows by two per `/`, and is idempotent |
| `Filenames.JoinClean` | command/files.go:13 | `path.Join` of a clean directory other than `""`, `.` and `/` with a plain name is the directory, `/` and the name |
| `Filenames.CanonicalInDirectory` | command/files.go:11-14 | for a clean directory other than `""`, `.` and `/`, and a page name whose escape is not `""`, `.` or `..`, the cache file of the page is the directory, `/` and the escaped name, which holds no `/` |
| `Query.MatchesAll` | client/api_client.go:165-170 | the `all` accumulator is true exactly when every tag is found for the snippet |
| `Query.FilterTitles` | client/api_client.go:162-179 | the page loop computes `FilteredTitles`: a title per page without tags, a title per kept page with tags |
| `Query.NoTagsKeepsAll` | command/api_client.go:269-271 | with no tags every title is kept, in order |
| `Query.FilterAppend` | client/api_client.go:162 | the filter works page by page: a concatenation's titles are each part's titles, in order |
| `Query.OnePage` | client/api_client.go:163-178 | a page yields its title once when there are no tags or some snippet finds every tag, and nothing otherwise |
| `Query.NoSnippetsDropped` | command/api_client.go:256-268 | with tags, a page without snippets is never kept |
| `Query.FilterLength` | command/api_client.go:255-272 | at most one title per page, and exactly one per page with no tags |
| `Query.FilterSound` | client/api_client.go:164-174 | every kept title belongs to a page with no tags to meet or a snippet finding every tag |
| `Query.FilterComplete` | command/api_client.go:257-267 | every page with no tags to meet or a snippet finding every tag contributes its title |
| `Query.FollowUps` | client/api_client.go:181-183 | with a count other than the limit the recursion stops: after `n` further queries no next page is needed, at every earlier skip one is, and `n` is at most `count - skip - limit`, or 0 when that is negative |
| `Query.Collected` | client/api_client.go:181-188 | the titles returned start with the current page's titles, and are only those when no next page is needed |
| `Query.CollectedPages` | client/api_client.go:181-188 | the returned titles are those of the pages at `skip`, `skip + limit`, ..., `skip + n * limit` in order, with `n` the number of further queries |
| `Cli.RewriteVersionArgs` | cmd/scrapbox/cli.go:34-42 | with `-v`, `-version` or `--version` anywhere, `"version"` followed by all the original arguments, one element added; otherwise the arguments unchanged |
| `Text.Index` | client/cache.go:132 | `strings.Index`: the first position of the pattern, and `-1` exactly when it does not occur |
| `Text.ToLower` | client/api_client.go:168-169 | lower-casing keeps the length, leaves no capital, raises each capital by 32 code points and keeps every other character |
| `Text.ToLowerIdempotent` | client/api_client.go:168-169 | lower-casing twice is lower-casing once |
| `Text.ToLowerAppend` | client/api_client.go:168-169 | lower-casing distributes over concatenation |
| `Text.ToLowerCaseBlind` | client/api_client.go:168-169 | texts that differ only in the case of their letters have the same lower case |
| `Query.TagHitIgnoresCase` | client/api_client.go:166-169 | the tag test is unchanged by lower-casing snippet, title or tag first, and two tags differing only in case find the same snippets |
| `Text.DecimalRoundTrip` | client/syntax/quoted_text.go:20 | `%d` of a count reads back as that count |

## Left out

- HTTP, JSON and authentication (`newRequest`, `decodeBody`, `GetPage`, the fetch in `ExecQuery`) are network and `encoding/json`. Only the filter and the next-page rule over decoded `(title, snippets)` records are modelled.
- Query.Collected: the recursion of `ExecQuery` is modelled with every answer reporting the same `count`, and with the filtered titles of the page at each skip given as a function, since the model fetches nothing. It requires `count != limit`: with `count == limit` every answer asks for the next page again (`Query.CountAtLimitRepeats`), so the Go recursion does not end on a fixed count and there is no result to model.
- Query.FollowUps: requires `count != limit` for the same reason.
- Cache freshness and file I/O (`haveGood*File`, `create*File`, `open*File`, the local cache readers and writers), the home-directory lookup, SQLite, and all CLI command bodies depend on the filesystem, the clock and the environment.
- Tokens.ImageShape: the regular expressions are matched over bytes, so the unescaped `.` in the gyazo branch of `image` (and of the image links and the bold image) reads one byte, where Go's `regexp` reads one UTF-8 character. A gyazo address with a multi-byte character in that position is an `image` token in Go and not in the model; `Tokens.ImageText` describes the byte reading.
- Nodes.StripPlaceholders: the loop works on its own array, filled from the node's children. In Go, `GetChildren` returns the node's own slice, so the in-place shift also changes the children of the node passed in; that aliasing is not modelled, and the node given to a constructor is left unchanged in the model.
- Text.ToLower: folds ASCII `A`-`Z` only; `strings.ToLower`'s Unicode case folding is not modelled.
- Uri.EncodeFlat: strings are byte sequences, so the lemmas require every character to be below 256. Multi-byte UTF-8 input is covered as its bytes, not as runes.
- Parser.Parse: requires an input without `'\r'`. The scanner's `"\r\n"` whitespace skip (client/syntax/parser.go:129) is not modelled.
- Goparsec's internals (`Maybe`, `OrdChoice`, `Kleene`, `And`, `ManyUntil`, the token scanner) are re-implemented from their behaviour. The debug `Prettyprint` is left out.
- `ManyUntil(line, lf, end)` checks for the end before each line. An empty document therefore has no lines, and a trailing `'\n'` adds no empty line. The model follows this code behaviour (`Parser.LinesJoin`), not a reading in which every segment, the last one included, becomes a line.
- `path.Clean` and `path.Join` are modelled from their documented rules (split on `/`, drop empty and `.` elements, resolve `..`, keep a leading `/`), since the library code is not part of this model.
- A panic in the block constructors is modelled as `None`.
- Go's `p.Lines` is a slice value that `ExtractExternalLinks` only reads; the model takes it as a `seq`, so it is unchanged by construction.

## Findings

| source | as written | input that shows it | evidently intended | confidence | as-written member | corrected member |
|---|---|---|---|---|---|---|
| client/syntax/quoted_text.go:17-25 | `range` reads the shifted backing array, so the child after a removed placeholder is never inspected (same in simple_text.go, table_block.go, code_block.go) | children `[indent "  ", missing, text "x"]` give `[missing, text "x"]` with indent `"2"` | every placeholder is removed | not executed | `Nodes.AdjacentPlaceholderSurvives` | `Nodes.StripAllFilters` |
| client/syntax/quoted_text.go:19-22 | after a removal the range index can pass the shortened length; a placeholder found there makes `children[i+1:]` start past the length, which panics (same in the other three constructors) | children `[indent " ", text "x", missing]` | the constructor returns the node without both placeholders | not executed | `Nodes.TrailingPlaceholderPanics` | `Nodes.BuiltIntended` |
