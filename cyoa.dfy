/**
 * The choose-your-own-adventure program: the story as a map of chapters,
 * the HTTP handler that serves one chapter per request, and the text-mode
 * flow that moves between chapters by the reader's choices. Templates,
 * standard input and the JSON story file are outside the model: the
 * template is a function from a template name and a chapter to the page or
 * an error, and the reader's input is a list of lines.
 */
module Cyoa {
  import W = Wrappers
  import opened Text

  /** A choice offered at the end of a chapter, leading to chapter `nextArc`. */
  datatype Option = Option(text: string, nextArc: string)

  datatype Chapter = Chapter(title: string, story: seq<string>, options: seq<Option>)

  /** Chapters by name. */
  type Story = map<string, Chapter>

  /** The zero `Chapter` a Go map lookup of a missing name returns. */
  const ZeroChapter := Chapter("", [], [])

  /** `s[c]` as Go evaluates it. */
  function ChapterOf(s: Story, c: string): Chapter {
    if c in s then s[c] else ZeroChapter
  }

  // ---------------------------------------------------------------------
  // Chapter names from request paths
  // ---------------------------------------------------------------------

  /** A path function: the chapter name for a request path, or `None` where it would panic. */
  type PathFn = string -> W.Option<string>

  /**
   * `DefaultPathFn`: the trimmed path without its leading character, with an
   * empty path or `/` read as `/intro`. It never panics: the path it slices
   * is never empty.
   */
  function DefaultPathFn(urlPath: string): (r: W.Option<string>)
    ensures r.Some?
  {
    var path := TrimSpace(urlPath);
    var path := if path == "" || path == "/" then "/intro" else path;
    W.Some(path[1..])
  }

  /** The site root, with or without surrounding white space, is the `intro` chapter. */
  lemma DefaultPathFnRoot(pre: string, post: string)
    requires AllSpace(pre) && AllSpace(post)
    ensures DefaultPathFn(pre + "/" + post) == W.Some("intro")
    ensures DefaultPathFn(pre + post) == W.Some("intro")
  {
    TrimSpacePadded(pre, "/", post);
    TrimSpacePadded(pre, "", post);
    assert pre + "" + post == pre + post;
  }

  /** Chapter `name` is served at `/name`. */
  lemma DefaultPathFnOfChapter(name: string)
    requires name != [] && !IsSpace(name[|name| - 1])
    ensures DefaultPathFn("/" + name) == W.Some(name)
  {
    var p := "/" + name;
    assert p[1..] == name;
    TrimSpaceOfTrimmed(p);
    assert p != "/" by { assert |p| > 1; }
  }

  // ---------------------------------------------------------------------
  // The handler
  // ---------------------------------------------------------------------

  /** A template set: the page rendered from template `name` for a chapter, or the execution error. */
  type Template = (string, Chapter) -> W.Result<string, string>

  datatype HandlerOption = WithTemplate(t: Template) | WithPathFunc(fn: PathFn)

  /** The template after applying `opts` in order: the last `WithTemplate` wins. */
  function TemplateAfter(t0: Template, opts: seq<HandlerOption>): Template
    decreases |opts|
  {
    if opts == [] then t0
    else match opts[|opts| - 1]
      case WithTemplate(t) => t
      case WithPathFunc(_) => TemplateAfter(t0, opts[..|opts| - 1])
  }

  /** The path function after applying `opts` in order: the last `WithPathFunc` wins. */
  function PathFnAfter(f0: PathFn, opts: seq<HandlerOption>): PathFn
    decreases |opts|
  {
    if opts == [] then f0
    else match opts[|opts| - 1]
      case WithPathFunc(fn) => fn
      case WithTemplate(_) => PathFnAfter(f0, opts[..|opts| - 1])
  }

  /** The last `WithTemplate` option decides the template, whatever comes before it. */
  lemma {:induction false} LastTemplateWins(t0: Template, opts: seq<HandlerOption>, i: int)
    requires 0 <= i < |opts| && opts[i].WithTemplate?
    requires forall j :: i < j < |opts| ==> !opts[j].WithTemplate?
    ensures TemplateAfter(t0, opts) == opts[i].t
    decreases |opts|
  {
    if i < |opts| - 1 {
      var init := opts[..|opts| - 1];
      assert init[i] == opts[i];
      assert forall j :: i < j < |init| ==> init[j] == opts[j];
      LastTemplateWins(t0, init, i);
    }
  }

  /** Without a `WithTemplate` option the default templates stay. */
  lemma {:induction false} DefaultTemplateStays(t0: Template, opts: seq<HandlerOption>)
    requires forall j :: 0 <= j < |opts| ==> !opts[j].WithTemplate?
    ensures TemplateAfter(t0, opts) == t0
    decreases |opts|
  {
    if opts != [] {
      var init := opts[..|opts| - 1];
      assert forall j :: 0 <= j < |init| ==> init[j] == opts[j];
      DefaultTemplateStays(t0, init);
    }
  }

  /** The last `WithPathFunc` option decides the path function, whatever comes before it. */
  lemma {:induction false} LastPathFnWins(f0: PathFn, opts: seq<HandlerOption>, i: int)
    requires 0 <= i < |opts| && opts[i].WithPathFunc?
    requires forall j :: i < j < |opts| ==> !opts[j].WithPathFunc?
    ensures PathFnAfter(f0, opts) == opts[i].fn
    decreases |opts|
  {
    if i < |opts| - 1 {
      var init := opts[..|opts| - 1];
      assert init[i] == opts[i];
      assert forall j :: i < j < |init| ==> init[j] == opts[j];
      LastPathFnWins(f0, init, i);
    }
  }

  /** Without a `WithPathFunc` option the default path function stays. */
  lemma {:induction false} DefaultPathFnStays(f0: PathFn, opts: seq<HandlerOption>)
    requires forall j :: 0 <= j < |opts| ==> !opts[j].WithPathFunc?
    ensures PathFnAfter(f0, opts) == f0
    decreases |opts|
  {
    if opts != [] {
      var init := opts[..|opts| - 1];
      assert forall j :: 0 <= j < |init| ==> init[j] == opts[j];
      DefaultPathFnStays(f0, init);
    }
  }

  const StatusNotFound := 404
  const StatusInternalServerError := 500

  /** What serving a request ends in. */
  datatype Response =
    | Page(body: string)                  // the rendered chapter
    | HttpError(status: int, body: string)
    | Panicked                            // the path function panicked

  class Handler {
    var story: Story
    var tmpl: Template
    var pathFn: PathFn

    /**
     * `NewHandler`: starts from `DefaultPathFn` and the templates loaded from
     * the templates directory, then applies the options in order, each
     * overwriting the field it sets.
     */
    constructor (s: Story, defaultTemplates: Template, opts: seq<HandlerOption>)
      ensures story == s
      ensures tmpl == TemplateAfter(defaultTemplates, opts)
      ensures pathFn == PathFnAfter(DefaultPathFn, opts)
    {
      story := s;
      tmpl := defaultTemplates;
      pathFn := DefaultPathFn;
      new;
      for i := 0 to |opts|
        invariant story == s
        invariant tmpl == TemplateAfter(defaultTemplates, opts[..i])
        invariant pathFn == PathFnAfter(DefaultPathFn, opts[..i])
      {
        assert opts[..i + 1][..i] == opts[..i];
        Apply(opts[i]);
      }
      assert opts[..|opts|] == opts;
    }

    /** One option: sets the field it names and nothing else. */
    method Apply(opt: HandlerOption)
      modifies this
      ensures story == old(story)
      ensures opt.WithTemplate? ==> tmpl == opt.t && pathFn == old(pathFn)
      ensures opt.WithPathFunc? ==> pathFn == opt.fn && tmpl == old(tmpl)
    {
      match opt
      case WithTemplate(t) => tmpl := t;
      case WithPathFunc(fn) => pathFn := fn;
    }

    /**
     * `ServeHTTP` for a request path: the chapter named by the path function
     * is rendered with `story.html`; a template error is a 500 and a
     * missing chapter a 404.
     */
    function Serve(urlPath: string): (r: Response)
      reads this
      ensures r == Panicked <==> pathFn(urlPath).None?
      ensures r == HttpError(StatusNotFound, "Chapter not found.") <==>
        pathFn(urlPath).Some? && pathFn(urlPath).value !in story
      ensures r.Page? <==> (pathFn(urlPath).Some? && pathFn(urlPath).value in story
        && tmpl("story.html", story[pathFn(urlPath).value]).Success?)
      ensures r.Page? ==> r.body == tmpl("story.html", story[pathFn(urlPath).value]).value
      ensures r == HttpError(StatusInternalServerError, "Something went wrong...") <==>
        (pathFn(urlPath).Some? && pathFn(urlPath).value in story
        && tmpl("story.html", story[pathFn(urlPath).value]).Failure?)
    {
      match pathFn(urlPath)
      case None => Panicked
      case Some(path) =>
        if path in story then
          match tmpl("story.html", story[path])
          case Success(page) => Page(page)
          case Failure(_) => HttpError(StatusInternalServerError, "Something went wrong...")
        else
          HttpError(StatusNotFound, "Chapter not found.")
    }
  }

  /** A handler without a path option serves the `intro` chapter at the site root. */
  lemma DefaultHandlerServesIntro(h: Handler)
    requires h.pathFn == DefaultPathFn
    requires "intro" in h.story && h.tmpl("story.html", h.story["intro"]).Success?
    ensures h.Serve("/") == Page(h.tmpl("story.html", h.story["intro"]).value)
  {
    DefaultPathFnRoot("", "");
    assert "" + "/" + "" == "/";
  }

  // ---------------------------------------------------------------------
  // The text-mode flow
  // ---------------------------------------------------------------------

  /** What one round of `CLIFlow` at a chapter does. */
  datatype Transition =
    | End               // the chapter has no options: the story is over
    | Eof               // no more input: the flow stops
    | Quit              // the reader typed `q`
    | Stay              // not a valid choice: the chapter is shown again
    | Next(arc: string) // a valid choice: on to that chapter

  /** One round of `CLIFlow` at chapter `c`, given the next input line or `None` when there is none. */
  function CliStep(s: Story, c: string, input: W.Option<string>): (t: Transition)
  {
    var options := ChapterOf(s, c).options;
    if |options| == 0 then End
    else match input
      case None => Eof
      case Some(line) =>
        if ToLower(line) == "q" then Quit
        else
          var choice := Atoi(line);
          if choice.None? || choice.value < 1 || choice.value > |options| then Stay
          else Next(options[choice.value - 1].nextArc)
  }

  /** The rules of one round, from the chapter and the input alone. */
  lemma CliStepCases(s: Story, c: string, input: W.Option<string>)
    ensures CliStep(s, c, input) == End <==> |ChapterOf(s, c).options| == 0
    ensures c !in s ==> CliStep(s, c, input) == End
    ensures |ChapterOf(s, c).options| > 0 ==>
      (CliStep(s, c, input) == Eof <==> input.None?)
    ensures |ChapterOf(s, c).options| > 0 && input.Some? ==>
      (CliStep(s, c, input) == Quit <==> ToLower(input.value) == "q")
    ensures |ChapterOf(s, c).options| > 0 && input.Some? && ToLower(input.value) != "q" ==>
      (CliStep(s, c, input) == Stay <==>
        (Atoi(input.value).None? || !(1 <= Atoi(input.value).value <= |ChapterOf(s, c).options|)))
    ensures |ChapterOf(s, c).options| > 0 ==> forall k: nat :: 1 <= k <= |ChapterOf(s, c).options| ==>
      CliStep(s, c, W.Some(NatToString(k))) == Next(ChapterOf(s, c).options[k - 1].nextArc)
    ensures CliStep(s, c, input).Next? ==>
      exists k :: 0 <= k < |ChapterOf(s, c).options| && CliStep(s, c, input).arc == ChapterOf(s, c).options[k].nextArc
  {
    forall k: nat | 1 <= k <= |ChapterOf(s, c).options|
      ensures CliStep(s, c, W.Some(NatToString(k))) == Next(ChapterOf(s, c).options[k - 1].nextArc)
    {
      AtoiNatToString(k);
      var line := NatToString(k);
      assert ToLower(line) != "q" by {
        assert IsDigit(line[0]);
        assert ToLower(line)[0] == line[0];
      }
    }
  }

  /** `c` may follow `prev` in a reading: the same chapter again, or one an option of `prev` leads to. */
  predicate Move(s: Story, prev: string, c: string) {
    c == prev || exists k :: 0 <= k < |ChapterOf(s, prev).options| && ChapterOf(s, prev).options[k].nextArc == c
  }

  /** How a reading ends, and at which chapter. */
  datatype Outcome = TheEnd(at: string) | Quitted(at: string) | OutOfInput(at: string)

  /**
   * `CLIFlow(s, c)` fed with the lines of `input`: the chapters shown in
   * order, and how the reading ends. Every chapter shown after the first is
   * a move from the one before, and a reading ends in `TheEnd` only at a
   * chapter without options.
   */
  function Play(s: Story, c: string, input: seq<string>): (r: (seq<string>, Outcome))
    ensures |r.0| >= 1 && r.0[0] == c
    ensures forall i :: 0 < i < |r.0| ==> Move(s, r.0[i - 1], r.0[i])
    ensures r.1.at == r.0[|r.0| - 1]
    ensures r.1.TheEnd? ==> |ChapterOf(s, r.1.at).options| == 0
    ensures |r.0| <= |input| + 1
    decreases |input|
  {
    var next := if input == [] then W.None else W.Some(input[0]);
    match CliStep(s, c, next)
    case End => ([c], TheEnd(c))
    case Eof => ([c], OutOfInput(c))
    case Quit => ([c], Quitted(c))
    case Stay =>
      var rest := Play(s, c, input[1..]);
      ([c] + rest.0, rest.1)
    case Next(arc) =>
      CliStepCases(s, c, next);
      var rest := Play(s, arc, input[1..]);
      ([c] + rest.0, rest.1)
  }
}
