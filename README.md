# Go back-end exercises, modelled in Dafny

This project models the logic of the Go exercise repository *Go-backOps-journey* and proves
properties of that model. The repository holds several small programs:

- **Sitemap crawler** (the main core). It validates a root domain and fetches pages level by
  level up to a maximum depth. It extracts the `<a href>` links of each page, resolves and
  canonicalises them, and keeps those on the root's host. It returns every URL it fetched,
  each once, together with the `URLSet` record that is serialised as a sitemaps.org 0.9 sitemap.
- **HTML link parser**. It collects the outermost `<a>` elements of a parsed HTML tree, each
  with its first `href` and its trimmed inner text.
- **Card deck**. It builds the 52-card deck, applies options to it (sort, shuffle, jokers,
  filter, multiple decks) and prints and compares cards.
- **URL shortener**. It builds a path table from a decoded YAML or JSON configuration, and
  decides for each request path between a 302 redirect, the fallback handler and a 500 for a
  database error.
- **Quiz**. It turns CSV records into trimmed question/answer problems, checks answers
  ignoring surrounding white space, and keeps the score.
- **Choose-your-own-adventure**. A web handler maps request paths to chapters through a
  configurable path function and template. A command-line loop moves from chapter to
  chapter on the reader's input.

The web is an explicit `World`:

- `parse` is an abstract partial `url.Parse`, giving scheme, host, path, query and fragment;
- `get` gives the parsed HTML tree of a URL, or nothing when the request fails.

With the web fixed, the crawl is deterministic. The package variable `baseURL` becomes the
explicit parameter `root`.

The crawl result is proved equal to the set of URLs within `maxDepth` eligible-link hops of
the start, and that set is characterised by walks in the link graph (`Sitemap.ReachIffPath`).
The ghost log of fetched pages shows that every collected URL is fetched exactly once.

Decoders (YAML, JSON, CSV, SQLite), templates and the random source enter as their results:
a decoded entry list, a template function, a function from a deck's size to a permutation. The go-routine and timer of the
quiz enter as the list of answers typed before time ran out.

## Where the model follows the code rather than the documentation

- The documentation comment of `extractText` (Sitemap/htmllink/htmllink.go:133-137) says
  text inside nested anchors is excluded. The code recurses into every element, so that text
  is included. The model follows the code (`HtmlLink.NestedAnchorTextIncluded`).
- `BuildSiteMap` queues `startURL.String()` as it is: the start is not canonicalised.
- `isValidLink` compares hosts as written: a case difference defeats it
  (`Sitemap.HostComparisonIsCaseSensitive`).
- `normalizeURL` removes one trailing `/`, so it is idempotent only for paths not ending in
  `//` (`Sitemap.CanonicalIdempotentIff`). The crawler's own `base + href` joins produce such
  paths when the root ends in `/` (`Sitemap.RootWithSlashDoublesSlash`).
- The handler's templates come from `MustLoadTemplates("templates")`. The model takes that
  template as a constructor parameter.

## Model

| member | source | states |
|---|---|---|
| Sitemap.WithScheme | Sitemap/sitemap/sitemap.go:39-41 | the result starts with `http://` or `https://`; input already naming either is kept, any other input gets `https://` in front |
| Sitemap.ParseAndValidateURL | Sitemap/sitemap/sitemap.go:36-54 | success exactly when the scheme-completed domain parses with a non-empty scheme and a non-empty host containing `.`; the result is that URL with scheme and host lower-cased (and still dotted); the error is `invalid domain: ` plus the completed domain |
| Sitemap.DefaultsToHttps | Sitemap/sitemap/sitemap_test.go:25-30 | `example.com` is accepted as `https://example.com` and prints back as that string |
| Sitemap.EmptyDomainRejected | Sitemap/sitemap/sitemap_test.go:61-66 | the empty domain becomes `https://`, which has no host and is refused with `invalid domain: https://` |
| Sitemap.CanonicalUrl | Sitemap/sitemap/sitemap.go:180-184 | fragment and query are cleared, scheme and host kept, and exactly one trailing `/` is removed from the path when there is one |
| Sitemap.NormalizeURL | Sitemap/sitemap/sitemap.go:175-187 | nil (None) exactly when the href does not parse, otherwise the canonical form of the parsed URL |
| Sitemap.CanonicalIdempotentIff | Sitemap/sitemap/sitemap.go:184 | canonicalising twice equals canonicalising once if and only if the path does not end in `//` |
| Sitemap.HostComparisonIsCaseSensitive | Sitemap/sitemap/sitemap.go:197 | a link whose host differs from the root's only in letter case is not eligible |
| Sitemap.IsValidLink | Sitemap/sitemap/sitemap.go:191-198 | `isValidLink` on a non-nil URL: not a `comment-page-` path, not mailto, exactly the root's host and no fragment; what it admits into the crawl is stated by `CandidateSpec`, `HostComparisonIsCaseSensitive` and `ReachOnSite` |
| Sitemap.ResolveCases | Sitemap/sitemap/sitemap.go:161-168 | a trimmed href starting with `/` becomes base + href, one starting with `http` is kept as is, any other is dropped |
| Sitemap.Resolve | Sitemap/sitemap/sitemap.go:161-168 | the absolute form of one href, or nothing; its three cases are stated by `ResolveCases` and `ResolveRooted` |
| Sitemap.HrefsOfAppend | Sitemap/sitemap/sitemap.go:160-169 | `hrefs` works link by link, so document order is kept: the result for a concatenation is the concatenation of the results |
| Sitemap.HrefsOfMembers | Sitemap/sitemap/sitemap.go:157-171 | a string is returned if and only if it is the resolution of some link's href |
| Sitemap.HrefsOf | Sitemap/sitemap/sitemap.go:157-171 | at most one URL per link; document order and membership are stated by `HrefsOfAppend` and `HrefsOfMembers`, and the loop `Hrefs` computes it |
| Sitemap.ResolveRooted | Sitemap/sitemap/sitemap.go:164-165 | a rooted href without outer white space is appended to the base unchanged |
| Sitemap.RootWithSlashDoublesSlash | Sitemap/sitemap/sitemap.go:165 | with a base ending in `/`, the rooted href `/a` yields a URL containing `//` |
| Sitemap.Hrefs | Sitemap/sitemap/sitemap.go:157-171 | the loop returns the resolutions of the page's links, in order, matching the link-by-link definition |
| Sitemap.Filter | Sitemap/sitemap/sitemap.go:201-209 | the loop returns exactly the links `keepFn` accepts, in their order |
| Sitemap.WithPrefix | Sitemap/sitemap/sitemap.go:212-216 | the returned test holds for a link if and only if `pfx` is a prefix of it |
| Sitemap.FetchedLinksUnderRoot | Sitemap/sitemap/sitemap.go:144-153 | every fetched link starts with the root's string, comes from a page that was served, and is the resolution of one of its links |
| Sitemap.FetchLinks | Sitemap/sitemap/sitemap.go:144-153 | a failed request gives no links; otherwise the page's resolved hrefs that start with the root, in order |
| Sitemap.FetchedLinks | Sitemap/sitemap/sitemap.go:144-153 | what `fetchLinks` returns for a page; stated by `FetchedLinksUnderRoot`, and the method `FetchLinks` computes it |
| Sitemap.Candidate | Sitemap/sitemap/sitemap.go:82-87 | the URL the nil-first guard queues for one link, if any; stated by `CandidateSpec`, `GuardsAgreeOnParsedLinks` and `CandidateSetMembers` |
| Sitemap.GuardAsWritten | Sitemap/sitemap/sitemap.go:85 | the guard as written fails (nil dereference) exactly when the normalised link is nil, and otherwise is `isValidLink` |
| Sitemap.CandidateSpec | Sitemap/sitemap/sitemap.go:83-87 | with the nil test first, a link is queued exactly when it parses and its canonical form is eligible (not a comment page, not mailto, the root's host, no fragment); what is queued is that form's string |
| Sitemap.GuardsAgreeOnParsedLinks | Sitemap/sitemap/sitemap.go:85 | on links that parse, the guard as written and the corrected guard take the same decision |
| Sitemap.NilDereferenceOnUnparsableLink | Sitemap/sitemap/sitemap.go:83-85 | a served page holding `<a href="/%zz">` yields a fetched link that does not parse; the guard as written fails on it and the corrected guard skips it |
| Sitemap.CandidateSetMembers | Sitemap/sitemap/sitemap.go:82-89 | a URL is queued for a page if and only if the corrected guard accepts one of the page's links |
| Sitemap.StepMembers | Sitemap/sitemap/sitemap.go:74-90 | one level queues exactly the URLs some page of the level links to |
| Sitemap.StepUnion | Sitemap/sitemap/sitemap.go:74-90 | the URLs queued from two sets of pages are the union of those queued from each |
| Sitemap.ReachSucc | Sitemap/sitemap/sitemap.go:67-91 | the pages within d+1 hops are those within d hops plus what they link to |
| Sitemap.ReachFixpoint | Sitemap/sitemap/sitemap.go:68-70 | once a level adds nothing new, no deeper level does, which justifies stopping when the next queue is empty |
| Sitemap.ReachMono | Sitemap/sitemap/sitemap.go:67 | a larger depth never collects fewer pages |
| Sitemap.StartReachedIff | Sitemap/sitemap/sitemap.go:63-67 | the start is collected if and only if `maxDepth >= 0`, and nothing is collected if and only if `maxDepth < 0` |
| Sitemap.LevelIffPath | Sitemap/sitemap/sitemap.go:67-91 | level d holds exactly the ends of link walks of length d from the start |
| Sitemap.ReachIffPath | Sitemap/sitemap/sitemap.go:58-98 | a URL is collected if and only if some link walk of at most `maxDepth` links from the start ends at it |
| Sitemap.ReachOnSite | Sitemap/sitemap/sitemap.go:83-87 | every collected URL other than the start is the string of a canonical URL on the root's host: not mailto, no comment page, no query, no fragment |
| Sitemap.QueueLinks | Sitemap/sitemap/sitemap.go:82-89 | the inner loop adds to the next queue exactly the URLs the corrected guard accepts |
| Sitemap.VisitPage | Sitemap/sitemap/sitemap.go:80-89 | visiting one page adds to the next queue exactly the URLs that page links to in the crawl graph |
| Sitemap.CrawlLevel | Sitemap/sitemap/sitemap.go:74-90 | one level marks all of `q` seen, queues exactly what the unseen pages of `q` link to, and fetches each unseen page once, extending the fetch log |
| Sitemap.CrawlLevelKeepsInvariant | Sitemap/sitemap/sitemap.go:67-91 | one level keeps the level loop's invariant: seen is everything within d-1 hops and seen plus the queue is everything within d hops |
| Sitemap.CrawlStopsAtReach | Sitemap/sitemap/sitemap.go:67-70 | when the level loop stops, at the depth bound or on an empty queue, what was seen is everything within `maxDepth` hops, so links first found at the last level are neither fetched nor returned |
| Sitemap.Crawl | Sitemap/sitemap/sitemap.go:58-91 | the seen set is exactly the URLs within `maxDepth` hops, and the fetch log lists each of them once |
| Sitemap.SetToSeq | Sitemap/sitemap/sitemap.go:93-96 | the result lists every member of the set exactly once |
| Sitemap.BuildSiteMap | Sitemap/sitemap/sitemap.go:58-98 | the URLs returned have no duplicates and are exactly those within `maxDepth` eligible-link hops of the start; every returned URL is fetched exactly once and nothing else is fetched |
| Sitemap.BuildURLSet | Sitemap/sitemap/sitemap.go:103-112 | the namespace is the sitemaps.org 0.9 one and there is one entry per URL with `loc` equal to that URL, in input order |
| HtmlLink.LinkNodes | Sitemap/htmllink/htmllink.go:96-109 | every node returned is an `<a>` element, and an `<a>` node yields exactly itself |
| HtmlLink.LinkNodesAreOutermostAnchors | Sitemap/htmllink/htmllink.go:96-109 | an anchor is returned if and only if it is an anchor of the tree that no other anchor encloses |
| HtmlLink.LinkNodesEmptyIffNoAnchor | Sitemap/htmllink/htmllink.go:96-109 | nothing is returned if and only if the tree holds no `<a>` element |
| HtmlLink.LinkNodesBound | Sitemap/htmllink/htmllink.go:96-109 | no more nodes are returned than the tree has `<a>` elements |
| HtmlLink.FirstHref | Sitemap/htmllink/htmllink.go:117-123 | the value of the first attribute keyed `href`, and `""` when there is none |
| HtmlLink.Builder.WriteString | Sitemap/htmllink/htmllink.go:152-153 | the buffer grows by exactly the written string at its end |
| HtmlLink.ExtractTextRecursive | Sitemap/htmllink/htmllink.go:150-159 | the buffer is extended by the data of every text node below `n`, each followed by a space, in document order; an element contributes its children's text and any other node nothing |
| HtmlLink.ExtractText | Sitemap/htmllink/htmllink.go:139-143 | the result is the trimmed text of the node |
| HtmlLink.TextOf | Sitemap/htmllink/htmllink.go:150-159 | the text `extractTextRecursive` writes for a node; stated by `ExtractTextRecursive` and `NestedAnchorTextIncluded` |
| HtmlLink.BuildLink | Sitemap/htmllink/htmllink.go:116-131 | a link is built if and only if the first `href` is non-empty, and then it holds that href and the node's trimmed text |
| HtmlLink.LinkOf | Sitemap/htmllink/htmllink.go:116-131 | what `buildLink` returns for an anchor; stated by `BuildLink`, `AnchorLink` and `LinksFromNone` |
| HtmlLink.ParseLinkNodes | Sitemap/htmllink/htmllink.go:80-89 | the given list is extended by the links of the outermost anchors, in order |
| HtmlLink.ParseLinks | Sitemap/htmllink/htmllink.go:48-50 | the links of a parsed document, starting from an empty list |
| HtmlLink.LinksOf | Sitemap/htmllink/htmllink.go:80-89 | the links of a parsed document; stated by `ParseLinkNodes`, `LinksOfBound`, `LinksFromSources` and the page examples |
| HtmlLink.LinksOfBound | Sitemap/htmllink/htmllink.go:80-89 | at most one link per `<a>` element of the document |
| HtmlLink.LinksFromSources | Sitemap/htmllink/htmllink.go:83-84 | every link returned comes from one of the outermost anchors and has a non-empty href |
| HtmlLink.LinksFromNone | Sitemap/htmllink/htmllink.go:124-126 | anchors without a non-empty href yield an empty list |
| HtmlLink.PageLinkNodes | Sitemap/htmllink/htmllink.go:103-106 | in the tree the parser builds for a fragment, only the body contributes anchors |
| HtmlLink.AnchorLink | Sitemap/htmllink/htmllink.go:127-130 | `<a href=h>w</a>` builds the link {h, w} for a word without outer white space |
| HtmlLink.SingleAnchorPage | HTML_Link_Parser/htmllink/htmllink_test.go:26-32 | a page holding a single anchor around one word yields exactly that link |
| HtmlLink.EmptyAnchorPage | Sitemap/htmllink/htmllink.go:139-143 | an anchor without content yields a link with empty text |
| HtmlLink.SingleLinkExample | HTML_Link_Parser/htmllink/htmllink_test.go:27-31 | `<a href="/home">Home</a>` yields {`/home`, `Home`} |
| HtmlLink.TwoAnchorPage | HTML_Link_Parser/htmllink/htmllink_test.go:33-39 | two sibling anchors separated by a space yield their two links in document order |
| HtmlLink.MultipleLinksExample | HTML_Link_Parser/htmllink/htmllink_test.go:33-39 | the `/about` and `/contact` anchors yield their links in order |
| HtmlLink.NoLinkExamples | HTML_Link_Parser/htmllink/htmllink_test.go:48-62 | an anchor without href, a document with only text and an empty document yield no link |
| HtmlLink.NestedAnchorTextIncluded | Sitemap/htmllink/htmllink.go:154-157 | the text of an anchor includes the text of an anchor nested inside it |
| CardsDeck.EqualsIgnoresAbsRank | BlackJack/Cards_Deck/card.go:176-178 | two cards are equal if and only if they differ in nothing but `absRank` |
| CardsDeck.EqualsSameString | BlackJack/Cards_Deck/card.go:64-69 | equal cards print the same |
| CardsDeck.CardString | BlackJack/Cards_Deck/card.go:64-69 | `Card.String`; stated by `CardStringExamples` and `EqualsSameString` |
| CardsDeck.Equals | BlackJack/Cards_Deck/card.go:176-178 | `Card.Equals`; stated by `EqualsIgnoresAbsRank` and `StandardDeckDistinct` |
| CardsDeck.Less | BlackJack/Cards_Deck/card.go:111-116 | the comparison `Less(cards)` makes; stated by `LessIsStrictWeakOrder` |
| CardsDeck.CardStringExamples | BlackJack/Cards_Deck/card_test.go:10-21 | `Ace of Hearts`, `Two of Clubs`, `Nine of Spades` and `Joker` print as in the example |
| CardsDeck.LessIsStrictWeakOrder | BlackJack/Cards_Deck/card.go:111-116 | `Less` is a strict weak order, and a sequence is sorted by it if and only if its `absRank` values never decrease |
| CardsDeck.StandardDeckOrder | BlackJack/Cards_Deck/card.go:80-88 | card i of the fresh deck has suit `suits[i/13]` and rank `i%13+1`, Ace to King, and `absRank` i+1, so the values run 1..52 strictly ascending |
| CardsDeck.StandardDeckDistinct | BlackJack/Cards_Deck/card.go:80-88 | no two positions of the fresh deck hold equal cards |
| CardsDeck.StandardDeck | BlackJack/Cards_Deck/card.go:78-88 | 52 cards; their order is stated by `StandardDeckOrder`, and `NewStandardDeck` builds them |
| CardsDeck.NewStandardDeck | BlackJack/Cards_Deck/card.go:78-88 | the nested loops lay out exactly the standard deck of 52 cards |
| CardsDeck.Sort | BlackJack/Cards_Deck/card.go:104-109 | in place: the cards are a rearrangement of the input, and sorted by `less` whenever `less` is a strict weak order |
| CardsDeck.DefaultSort | BlackJack/Cards_Deck/card.go:98-101 | in place: a rearrangement of the input whose `absRank` values never decrease |
| CardsDeck.SortCards | BlackJack/Cards_Deck/card.go:104-109 | the sorted copy is a rearrangement of the input, sorted by any strict weak order |
| CardsDeck.SortedStandardDeckStartsWithAce | BlackJack/Cards_Deck/card_test.go:34-49 | a rearrangement of the fresh deck sorted by `Less` starts with the Ace of Spades |
| CardsDeck.Permuted | BlackJack/Cards_Deck/card.go:123-125 | position i holds `cards[perm[i]]` |
| CardsDeck.Shuffle | BlackJack/Cards_Deck/card.go:119-127 | the method fills a fresh slice as `Shuffled` describes, failing on an index out of range |
| CardsDeck.PermutedMultiset | BlackJack/Cards_Deck/card.go:122-125 | picking the cards in the order of a permutation of the positions keeps every card, each as often |
| CardsDeck.ShufflePermutes | BlackJack/Cards_Deck/card.go:119-127 | shuffling with a permutation never fails and keeps the deck's size and multiset of cards |
| CardsDeck.Shuffled | BlackJack/Cards_Deck/card.go:119-127 | what the `Shuffle` loop leaves for a given permutation; stated by `ShufflePermutes`, and the method `Shuffle` computes it |
| CardsDeck.ShuffleStepKeepsCards | BlackJack/Cards_Deck/card.go:119-127 | the shuffle option never panics and keeps the deck's size and every card, whichever permutation of the deck's own positions the random source drew |
| CardsDeck.WithJokers | BlackJack/Cards_Deck/card.go:131-145 | fails with `Jokers count cannot be negative` exactly when n < 0; otherwise the deck is kept as a prefix followed by n jokers, joker i having rank `Rank(i)` and `absRank` -1 |
| CardsDeck.Jokers | BlackJack/Cards_Deck/card.go:131-145 | the loop appends the jokers as `WithJokers` describes |
| CardsDeck.WithoutMatching | BlackJack/Cards_Deck/card.go:148-158 | no remaining card matches `f`, and every card not matching `f` remains (the order is `Seqs.Keep`'s) |
| CardsDeck.Filter | BlackJack/Cards_Deck/card.go:148-158 | the loop keeps exactly the cards not matching `f`, in order |
| CardsDeck.RepeatLength | BlackJack/Cards_Deck/card.go:167-171 | n copies hold n times as many cards |
| CardsDeck.RepeatAt | BlackJack/Cards_Deck/card.go:167-171 | copy k occupies positions `k*len` to `(k+1)*len - 1`, card for card |
| CardsDeck.RepeatCount | BlackJack/Cards_Deck/card.go:167-171 | n copies hold every card n times as often |
| CardsDeck.Duplicated | BlackJack/Cards_Deck/card.go:162-173 | fails with `Deck count must be at least 1` exactly when n < 1 |
| CardsDeck.Deck | BlackJack/Cards_Deck/card.go:162-173 | the loop appends n copies of the deck, as `Duplicated` describes |
| CardsDeck.ApplyOption | BlackJack/Cards_Deck/card.go:90-92 | applying one option gives one of the outcomes that option allows for the deck; a shuffle draws its permutation for the size of the deck it receives |
| CardsDeck.AppliedAfterFailure | BlackJack/Cards_Deck/card.go:134-135 | once an option panics, the options after it do not run and the panic is the result |
| CardsDeck.New | BlackJack/Cards_Deck/card.go:77-95 | the standard deck with the options applied left to right, each to the previous one's output; a shuffle rearranges the deck it receives by a permutation of that deck's positions |
| CardsDeck.AppliedOne | BlackJack/Cards_Deck/card.go:90-92 | with a single option, `New` gives exactly what that option gives for the standard deck |
| CardsDeck.NewWithoutOptions | BlackJack/Cards_Deck/card_test.go:24-30 | `New()` gives 52 cards |
| CardsDeck.SortedNewStartsWithAce | BlackJack/Cards_Deck/card_test.go:34-49 | `New(DefaultSort)` and `New(Sort(Less))` start with the Ace of Spades |
| CardsDeck.NewWithThreeJokers | BlackJack/Cards_Deck/card_test.go:52-64 | `New(Jokers(3))` holds 55 cards, exactly three of them jokers |
| CardsDeck.NewRejectsBadCounts | BlackJack/Cards_Deck/card_test.go:104-121 | `New(Jokers(-1))` and `New(Deck(0))` panic with their messages |
| CardsDeck.NewWithThreeDecks | BlackJack/Cards_Deck/card_test.go:81-87 | `New(Deck(3))` holds 156 cards, three of each standard card |
| CardsDeck.NewWithoutTwosAndThrees | BlackJack/Cards_Deck/card_test.go:67-78 | filtering out twos and threes leaves none of them and keeps every other card |
| CardsDeck.NewJokersThenShuffle | BlackJack/Cards_Deck/card.go:74-76 | the documented `New(Jokers(2), Shuffle)` gives 54 cards: the standard deck and the two jokers, in some order |
| Handlers.BuildMap | URL_Shortner/handler/handlers.go:118-125 | the loop produces the path table of the entries, later entries overwriting earlier ones |
| Handlers.PathTable | URL_Shortner/handler/handlers.go:118-125 | the table `buildMap` produces; stated by `PathTableKeys`, `LastEntryWins` and `PathTableValue` |
| Handlers.PathTableKeys | URL_Shortner/handler/handlers.go:121-123 | the table's keys are exactly the configured paths |
| Handlers.LastEntryWins | URL_Shortner/handler/handlers.go:121-123 | a path maps to the URL of its last entry |
| Handlers.PathTableValue | URL_Shortner/handler/handlers.go:121-123 | every value in the table is the URL of the last entry for its path |
| Handlers.MapRouteOfConfig | URL_Shortner/handler/handlers.go:24-37 | over a built table, a path is redirected with 302 if and only if it is configured, to its last entry's URL; every other path goes to the fallback |
| Handlers.MapRoute | URL_Shortner/handler/handlers.go:24-37 | the `MapHandler` decision; stated by `MapRouteOfConfig` and `MapHandlerExample` |
| Handlers.MapHandlerExample | URL_Shortner/handler/handlers_test.go:10-35 | with the test's two-entry table, `/raz-go` redirects with 302 to its URL and `/non-existent` goes to the fallback |
| Handlers.ConfigHandler | URL_Shortner/handler/handlers.go:69-104 | for the format named: an empty file is refused before decoding; a decode error is returned as `error unmarshaling <format>: ` plus the error; otherwise the handler routes over the path table of the decoded entries; success if and only if the file is non-empty and decodes |
| Handlers.YamlHandler | URL_Shortner/handler/handlers.go:69-84 | `ConfigHandler` for YAML; its messages are stated by `EmptyConfigRefused` and `DecodeErrorsNamed` |
| Handlers.JsonHandler | URL_Shortner/handler/handlers.go:89-104 | `ConfigHandler` for JSON; its messages are stated by `EmptyConfigRefused` and `DecodeErrorsNamed` |
| Handlers.EmptyConfigRefused | URL_Shortner/handler/handlers.go:71-73 | empty input is refused whatever the decoder would say |
| Handlers.DecodeErrorsNamed | URL_Shortner/handler/handlers.go:76-112 | a decoder's error comes back behind `error unmarshaling YAML: ` or `error unmarshaling JSON: ` |
| Handlers.ConfigHandlersRoute | URL_Shortner/handler/handlers.go:81-83 | a handler built from a decoded file routes as `MapHandler` over `buildMap` of the entries, whichever format was read |
| Handlers.SqlRoute | URL_Shortner/handler/handlers.go:50-62 | no row goes to the fallback, any other query error is a 500 `Internal Server Error`, and a row is a 302 to the stored URL, each if and only if |
| Handlers.SqlAgreesWithMap | URL_Shortner/handler/handlers.go:42-64 | over a database holding a table, the SQLite handler takes the same decisions as `MapHandler` over that table |
| Quiz.ParseLines | Quiz/QuizLogic/quiz.go:37-50 | success if and only if every line has at least two columns; then there is one problem per line, the trimmed columns 0 and 1; otherwise the error names the first short line, counted from 1 |
| Quiz.ParseCSV | Quiz/QuizLogic/quiz.go:24-34 | a reader error and an empty file are refused with their messages; otherwise the result is that of parsing the records |
| Quiz.CheckAnswerEquivalence | Quiz/QuizLogic/quiz.go:53-55 | answer checking is reflexive, symmetric and transitive |
| Quiz.CheckAnswerPadded | Quiz/QuizLogic/quiz.go:53-55 | white space around an answer never matters, and nothing else, letter case included, is forgiven |
| Quiz.CheckAnswerOfTrimmed | Quiz/QuizLogic/quiz.go:53-55 | on strings without outer white space, checking is plain equality |
| Quiz.CheckAnswerExamples | Quiz/QuizLogic/quiz_test.go:29-46 | padding is forgiven, a different word or different capitalisation is not, on the test's inputs |
| Quiz.CheckAnswer | Quiz/QuizLogic/quiz.go:53-55 | `checkAnswer`; stated by `CheckAnswerEquivalence`, `CheckAnswerPadded` and `CheckAnswerOfTrimmed` |
| Quiz.CountCorrect | Quiz/QuizLogic/quiz.go:73-76 | no more answers are right than were given |
| Quiz.CountCorrectAllRight | Quiz/QuizLogic/quiz.go:73-76 | when every answer checks, every answer counts |
| Quiz.CountCorrectAllWrong | Quiz/QuizLogic/quiz.go:73-76 | when no answer checks, none counts |
| Quiz.RunQuiz | Quiz/QuizLogic/quiz.go:58-80 | the reported score counts the answers that check, `0 <= correct <= len(answers) <= len(problems)`, and the wrong count is `len(problems) - correct`, whether the time ran out or not |
| Cyoa.DefaultPathFn | CYOA/cyoa/handler.go:77-83 | never panics: the path it slices is never empty |
| Cyoa.DefaultPathFnRoot | CYOA/cyoa/handler.go:78-81 | the root, with or without surrounding white space, and the empty path are the `intro` chapter |
| Cyoa.DefaultPathFnOfChapter | CYOA/cyoa/handler.go:82 | `/name` is chapter `name` |
| Cyoa.LastTemplateWins | CYOA/cyoa/handler.go:35-37 | the last `WithTemplate` option decides the template |
| Cyoa.DefaultTemplateStays | CYOA/cyoa/handler.go:31 | without a `WithTemplate` option the default templates stay |
| Cyoa.TemplateAfter | CYOA/cyoa/handler.go:35-47 | the template the options leave; stated by `LastTemplateWins` and `DefaultTemplateStays` |
| Cyoa.LastPathFnWins | CYOA/cyoa/handler.go:35-37 | the last `WithPathFunc` option decides the path function |
| Cyoa.DefaultPathFnStays | CYOA/cyoa/handler.go:32 | without a `WithPathFunc` option `DefaultPathFn` stays |
| Cyoa.PathFnAfter | CYOA/cyoa/handler.go:35-54 | the path function the options leave; stated by `LastPathFnWins` and `DefaultPathFnStays` |
| Cyoa.Handler.constructor | CYOA/cyoa/handler.go:28-40 | the handler holds the story, and the template and path function the options leave in order |
| Cyoa.Handler.Apply | CYOA/cyoa/handler.go:43-54 | an option sets its own field and leaves the others unchanged |
| Cyoa.Handler.Serve | CYOA/cyoa/handler.go:59-73 | a panic in the path function is the only panic; a missing chapter is a 404 `Chapter not found.`; a present chapter is the rendered `story.html`, or a 500 `Something went wrong...` on a template error; each if and only if |
| Cyoa.DefaultHandlerServesIntro | CYOA/cyoa/handler.go:77-83 | a handler with the default path function serves `intro` at the site root |
| Cyoa.CliStepCases | CYOA/cyoa/cli.go:12-59 | a chapter without options, missing chapters included, ends the story; otherwise no input stops, `q` in any case quits, a non-number or a number outside 1..len(options) stays, and choice k moves to option k's arc |
| Cyoa.CliStep | CYOA/cyoa/cli.go:12-59 | one round of `CLIFlow`; its rules are stated by `CliStepCases` |
| Cyoa.Play | CYOA/cyoa/cli.go:12-59 | a reading starts at the given chapter, each later chapter repeats the previous one or follows one of its options, it shows at most one chapter per input line plus the first, and it ends in The End only at a chapter without options |
| CyoaMain.CustomPathFn | CYOA/main.go:58-64 | panics (None) exactly when the trimmed path is shorter than `/story/` and is not `/story` |
| CyoaMain.CustomPathFnUnderStory | CYOA/main.go:52 | every path the server routes to the handler, those under `/story/`, is served without a panic |
| CyoaMain.CustomPathFnOfChapter | CYOA/main.go:59-63 | `/story/name` is chapter `name`, and `/story` and `/story/` are `start` |
| CyoaMain.StoryHandlerServesStart | CYOA/main.go:47 | the program's handler renders the `start` chapter at `/story/` |
| CyoaMain.ProgramOptionsInstallPathFn | CYOA/main.go:47 | the program's options install its path function and template |
| Text.TrimSpacePadded | Quiz/QuizLogic/quiz.go:54 | trimming removes exactly the white space around a core without outer white space |
| Text.TrimSpace | Quiz/QuizLogic/quiz.go:54 | the result has no outer white space and is no longer than the input; what exactly is removed is stated by `TrimSpacePadded` |
| Text.TrimSpaceOfTrimmed | Quiz/QuizLogic/quiz.go:54 | a string without outer white space is left as it is |
| Text.TrimSpaceIdempotent | Quiz/QuizLogic/quiz.go:54 | trimming twice is trimming once |
| Text.ToLowerIsLower | Sitemap/sitemap/sitemap.go:50-51 | lower-casing leaves no upper-case letter, and leaves a string without one unchanged |
| Text.ToLower | Sitemap/sitemap/sitemap.go:50-51 | the same length, each character lower-cased as `LowerChar` does |
| Text.AtoiNatToString | CYOA/cyoa/cli.go:48 | a decimal numeral reads back as its number |
| Text.Atoi | CYOA/cyoa/cli.go:48 | a number if and only if the input is an optional sign and one or more decimal digits and nothing else |

## Left out

- HTTP requests, file creation and writing, `xml.MarshalIndent` and the XML header: the
  crawl sees the web through `World.get`, and the model stops at the `URLSet` record.
- The internals of `url.Parse`, `URL.String` escaping and `html.Parse`. A URL is a record
  produced by an abstract partial parse and printed as `scheme://host` + path, and HTML is a
  node tree. The "Nested links" and malformed-HTML test cases depend on the parser repairing
  the tree, so they are not examples here.
- `ParseLinks`' handling of a parse error and of a nil root: the model starts from a parsed
  document.
- YAML, JSON, CSV and SQLite decoding: their results (entries, records, query outcome or the
  error text) are inputs.
- `parseYAML` is not modelled separately: its message prefix is part of
  `Handlers.ConfigHandler`'s error for YAML.
- The go-routine, channel and timer of `RunQuiz`, and reading standard input. They become
  the list of answers typed before time ran out.
- The printed lines of `RunQuiz` and `CLIFlow` (titles, story text, prompts): only the
  scores and the transitions are modelled.
- The random source of `Shuffle`: `rand.Perm` seeded with the time is a parameter of `New`, a
  function from the deck's size to a permutation of its positions. Within one second Go's
  source gives the same permutation for the same size, as the function does.
- Go's map iteration order: the crawl's result and queues are sets, and `SetToSeq` lists a set
  in an unspecified order.
- Template loading (`MustLoadTemplates` in CYOA/cyoa/templates.go): the default templates are
  a constructor parameter, and a template is a function from name and chapter to a page or an
  error. Partial output written before a template error is not modelled.
- What `http.Redirect` and `http.Error` write (relative-URL rewriting, response bodies with a
  trailing newline). Responses are decisions: redirect, error status and message, fallback,
  page.
- `strings.TrimSpace` and `strings.ToLower` beyond ASCII. White space is the ASCII white space
  (U+0009 to U+000D and U+0020) plus U+0085 and U+00A0. So the model keeps U+1680, U+2000 to
  U+200A, U+2028, U+2029, U+202F, U+205F and U+3000, which Go's `TrimSpace` removes.
  Lower-casing maps `A`-`Z` only.
- The stringer-generated name tables are not part of this model: a fixed table gives the names
  of `Suit` and `Rank`, with `Rank(<n>)` for unnamed ranks.
- Go's `int` width: counts and ranks are unbounded integers except `Rank`, a `uint8` whose
  conversion from a joker index is written out modulo 256. `strconv.Atoi`'s range error is not
  modelled; any number it would refuse is outside 1..len(options), so the transition is the
  same.
- Flag parsing, server start-up and file handling in the programs' `main` functions, and the
  JSON story decoding in CYOA/cyoa/cyoa.go (its `Story`, `Chapter` and `Option` types are
  mirrored).
- CardsDeck.Sort: `sort.Slice` is unstable and its result is only sorted when `less` is a
  strict weak order, so the contract promises a sorted rearrangement under that condition and
  nothing about the order of equal cards. `less` is a comparison of two cards, not of two
  positions of the slice being sorted, so comparators that look at positions are not covered.
- CardsDeck.New: with a sort option the result is any sorted rearrangement, because
  `sort.Slice` does not fix the order of equal cards. With the shuffle option it is the deck
  rearranged by any permutation of its own positions, since the clock picks the permutation.
- Cyoa.Play: EOF ends the reading at the current chapter, as `CLIFlow` returning does; the
  contract bounds the number of chapters by the input lines but does not restate each round.
- Sitemap.BuildSiteMap: the order of the returned URLs is not specified, as Go's map
  iteration order is not.

## Findings

| source | as written | input that shows it | evidently intended | confidence | as-written member | corrected member |
|---|---|---|---|---|---|---|
| Sitemap/sitemap/sitemap.go:85 | `isValidLink(normalizedURL) && normalizedURL != nil` evaluates `isValidLink` first, which reads `u.Path` of a nil pointer when `normalizeURL` failed | a page of the crawled site holding `<a href="/%zz">`: the fetched link `root + "/%zz"` has an invalid escape, `url.Parse` refuses it and the crawl panics | test for nil first and skip links that do not parse | not executed | Sitemap.NilDereferenceOnUnparsableLink | Sitemap.CandidateSpec |
