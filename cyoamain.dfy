/**
 * The path function the web front end of the adventure installs: chapters
 * live under `/story/`, and the bare `/story` page is the `start` chapter.
 */
module CyoaMain {
  import W = Wrappers
  import opened Text
  import Cyoa

  const StoryPrefix := "/story/"

  /**
   * `customPathFn`: the trimmed path without its first `len("/story/")`
   * characters, with `/story` and `/story/` read as `/story/start`. A
   * shorter path would be sliced past its end, a panic, here `None`.
   */
  function CustomPathFn(urlPath: string): (r: W.Option<string>)
    ensures var p := TrimSpace(urlPath);
      r.None? <==> (|p| < |StoryPrefix| && p != "/story")
  {
    var path := TrimSpace(urlPath);
    var path := if path == "/story" || path == "/story/" then "/story/start" else path;
    if |path| < |StoryPrefix| then W.None else W.Some(path[|StoryPrefix|..])
  }

  /** Every path the server routes to the handler, that is every path under `/story/`, is served without a panic. */
  lemma CustomPathFnUnderStory(urlPath: string)
    requires HasPrefix(TrimSpace(urlPath), StoryPrefix)
    ensures CustomPathFn(urlPath).Some?
  {
  }

  /** Chapter `name` is served at `/story/name`; the bare story page is `start`. */
  lemma CustomPathFnOfChapter(name: string)
    requires name != [] && !IsSpace(name[|name| - 1])
    ensures CustomPathFn(StoryPrefix + name) == W.Some(name)
    ensures CustomPathFn("/story") == W.Some("start") && CustomPathFn(StoryPrefix) == W.Some("start")
  {
    var p := StoryPrefix + name;
    assert p[0] == '/';
    TrimSpaceOfTrimmed(p);
    TrimSpaceOfTrimmed("/story");
    TrimSpaceOfTrimmed(StoryPrefix);
    assert p != "/story" && p != "/story/" by { assert |p| > 7; }
    assert p[|StoryPrefix|..] == name;
    assert "/story/start"[7..] == "start";
  }

  /**
   * The handler the program builds, with its own templates and this path
   * function, renders the `start` chapter at `/story/`.
   */
  lemma StoryHandlerServesStart(h: Cyoa.Handler)
    requires h.pathFn == CustomPathFn
    requires "start" in h.story && h.tmpl("story.html", h.story["start"]).Success?
    ensures h.Serve(StoryPrefix) == Cyoa.Page(h.tmpl("story.html", h.story["start"]).value)
  {
    CustomPathFnOfChapter("start");
  }

  /** The options the program passes install its path function, whatever templates were passed first. */
  lemma ProgramOptionsInstallPathFn(tpl: Cyoa.Template)
    ensures Cyoa.PathFnAfter(Cyoa.DefaultPathFn, [Cyoa.WithTemplate(tpl), Cyoa.WithPathFunc(CustomPathFn)]) == CustomPathFn
    ensures Cyoa.TemplateAfter(tpl, [Cyoa.WithTemplate(tpl), Cyoa.WithPathFunc(CustomPathFn)]) == tpl
  {
    var opts := [Cyoa.WithTemplate(tpl), Cyoa.WithPathFunc(CustomPathFn)];
    Cyoa.LastPathFnWins(Cyoa.DefaultPathFn, opts, 1);
    Cyoa.LastTemplateWins(tpl, opts, 0);
  }
}
