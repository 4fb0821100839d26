/**
 The event-driven reader of Wikipedia dumps (wikiload.c). The XML library is represented by the
 events it delivers; a call of the callback is represented by an entry in `documents`.
 */
module WikiLoad {
  import opened Wrappers

  datatype Event = Start(name: string) | End(name: string) | Data(chunk: string)

  datatype Status =
    | InDocument | InPage | InPageTitle | InPageId | InPageRevision | InPageRevisionText | InPageRevisionTimestamp

  datatype Article = Article(title: string, text: string, timestamp: string)

  /** The fields of wikipedia_parser (a string is None while its pointer is NULL) and the callbacks made so far. */
  datatype State = State(status: Status, title: Option<string>, body: Option<string>, timestamp: Option<string>,
                         articleCount: nat, documents: seq<Article>)

  const INITIAL := State(InDocument, None, None, None, 0, [])

  // ---------------------------------------------------------------------------
  // One event, on states; None when a NULL string would be used
  // ---------------------------------------------------------------------------

  function Opened(s: State, el: string): (t: State)
  {
    match s.status
    case InDocument =>
      if el == "page" then s.(status := InPage) else s
    case InPage =>
      if el == "title" then s.(status := InPageTitle, title := Some(""))
      else if el == "id" then s.(status := InPageId)
      else if el == "revision" then s.(status := InPageRevision)
      else s
    case InPageRevision =>
      if el == "timestamp" then s.(status := InPageRevisionTimestamp, timestamp := Some(""))
      else if el == "text" then s.(status := InPageRevisionText, body := Some(""))
      else s
    case _ => s
  }

  /** The end of an article: hand the three strings on unless the limit is reached, then drop them. */
  function Delivered(s: State, max: int): (t: Option<State>)
  {
    if s.title.None? || s.body.None? || s.timestamp.None? then None
    else
      var article := Article(s.title.value, s.body.value, s.timestamp.value);
      Some(State(InPageRevision, None, None, None, s.articleCount + 1,
                 if max < 0 || s.articleCount < max then s.documents + [article] else s.documents))
  }

  function Closed(s: State, el: string, max: int): (t: Option<State>)
  {
    match s.status
    case InDocument => Some(s)
    case InPage => Some(if el == "page" then s.(status := InDocument) else s)
    case InPageTitle => Some(if el == "title" then s.(status := InPage) else s)
    case InPageId => Some(if el == "id" then s.(status := InPage) else s)
    case InPageRevision => Some(if el == "revision" then s.(status := InPage) else s)
    case InPageRevisionTimestamp =>
      if el == "timestamp" then Some(s.(status := InPageRevision))
      else if el == "text" then Delivered(s, max)
      else Some(s)
    case InPageRevisionText => if el == "text" then Delivered(s, max) else Some(s)
  }

  function Append(s: Option<string>, chunk: string): (t: Option<string>)
    requires s.Some?
  {
    Some(s.value + chunk)
  }

  function Added(s: State, chunk: string): (t: Option<State>)
  {
    match s.status
    case InPageTitle => if s.title.None? then None else Some(s.(title := Append(s.title, chunk)))
    case InPageRevisionTimestamp =>
      if s.timestamp.None? then None else Some(s.(timestamp := Append(s.timestamp, chunk)))
    case InPageRevisionText => if s.body.None? then None else Some(s.(body := Append(s.body, chunk)))
    case _ => Some(s)
  }

  function Step(s: State, e: Event, max: int): (t: Option<State>)
  {
    match e
    case Start(el) => Some(Opened(s, el))
    case End(el) => Closed(s, el, max)
    case Data(chunk) => Added(s, chunk)
  }

  function Run(s: State, es: seq<Event>, max: int): (t: Option<State>)
    decreases |es|
  {
    if es == [] then Some(s)
    else match Step(s, es[0], max)
      case None => None
      case Some(u) => Run(u, es[1..], max)
  }

  // ---------------------------------------------------------------------------
  // What holds on every run, of any event stream at all
  // ---------------------------------------------------------------------------

  /** A string being filled exists, a text only while it is read, and the callbacks made are those the limit allows. */
  predicate Consistent(s: State, max: int)
  {
    && (s.status == InPageTitle ==> s.title.Some?)
    && (s.status == InPageRevisionTimestamp ==> s.timestamp.Some?)
    && (s.status == InPageRevisionText <==> s.body.Some?)
    && |s.documents| == if max < 0 || s.articleCount < max then s.articleCount else max
  }

  /**
   A NULL string is met exactly at an end tag `text` inside a timestamp, into which the cases of `end` fall through, or
   at one that closes a text without a title or a timestamp before it. Character data and every other tag are safe.
   */
  lemma StepConsistent(s: State, e: Event, max: int)
    requires Consistent(s, max)
    ensures Step(s, e, max).Some? ==> Consistent(Step(s, e, max).value, max)
    ensures Step(s, e, max).None? <==>
            && e == End("text")
            && (s.status == InPageRevisionTimestamp
                || (s.status == InPageRevisionText && (s.title.None? || s.timestamp.None?)))
  {
  }

  lemma {:induction false} RunConsistent(s: State, es: seq<Event>, max: int)
    requires Consistent(s, max)
    ensures Run(s, es, max).Some? ==> Consistent(Run(s, es, max).value, max)
    ensures Run(s, es, max).None? ==> End("text") in es
    decreases |es|
  {
    if es != [] {
      StepConsistent(s, es[0], max);
      if Step(s, es[0], max).Some? {
        RunConsistent(Step(s, es[0], max).value, es[1..], max);
      }
    }
  }

  lemma {:induction false} RunConcat(s: State, a: seq<Event>, b: seq<Event>, max: int)
    ensures Run(s, a + b, max) == match Run(s, a, max) case None => None case Some(t) => Run(t, b, max)
    decreases |a|
  {
    hide Step;
    if a == [] {
      assert a + b == b;
    } else {
      assert (a + b)[1..] == a[1..] + b;
      var t := Step(s, a[0], max);
      if t.Some? {
        RunConcat(t.value, a[1..], b, max);
      }
    }
  }

  lemma RunOne(s: State, e: Event, max: int)
    ensures Run(s, [e], max) == Step(s, e, max)
  {
    hide Step;
    assert [e][1..] == [];
  }

  /** Once the limit is reached nothing more is handed on. */
  lemma {:induction false} Saturated(s: State, es: seq<Event>, max: int)
    requires 0 <= max <= s.articleCount && Run(s, es, max).Some?
    ensures Run(s, es, max).value.documents == s.documents
    decreases |es|
  {
    if es != [] {
      Saturated(Step(s, es[0], max).value, es[1..], max);
    }
  }

  // ---------------------------------------------------------------------------
  // Events that are passed over
  // ---------------------------------------------------------------------------

  predicate PassedInDocument(es: seq<Event>)
  {
    forall k :: 0 <= k < |es| ==> es[k] != Start("page")
  }

  predicate PassedInRevision(es: seq<Event>)
  {
    forall k :: 0 <= k < |es| ==>
      match es[k]
      case Start(el) => el != "timestamp" && el != "text"
      case End(el) => el != "revision"
      case Data(_) => true
  }

  /** Complete `id` elements and tags of no interest; `inId` says whether an `id` element is open. */
  predicate PassedInPage(es: seq<Event>, inId: bool)
    decreases |es|
  {
    if es == [] then !inId
    else if inId then PassedInPage(es[1..], es[0] != End("id"))
    else match es[0]
      case Start(el) => el != "title" && el != "revision" && PassedInPage(es[1..], el == "id")
      case End(el) => el != "page" && PassedInPage(es[1..], false)
      case Data(_) => PassedInPage(es[1..], false)
  }

  /** Inside an element that is being read: anything but its end tag (and, in a timestamp, the end tag `text`). */
  predicate Inside(es: seq<Event>, el: string)
  {
    forall k :: 0 <= k < |es| ==> es[k] != End(el) && (el == "timestamp" ==> es[k] != End("text"))
  }

  /** The character data of a stretch of events, however it was cut into chunks. */
  function Text(es: seq<Event>): (t: string)
    decreases |es|
  {
    if es == [] then "" else (if es[0].Data? then es[0].chunk else "") + Text(es[1..])
  }

  lemma {:induction false} DocumentPasses(s: State, es: seq<Event>, max: int)
    requires s.status == InDocument && PassedInDocument(es)
    ensures Run(s, es, max) == Some(s)
    decreases |es|
  {
    if es != [] {
      DocumentPasses(s, es[1..], max);
    }
  }

  lemma {:induction false} RevisionPasses(s: State, es: seq<Event>, max: int)
    requires s.status == InPageRevision && PassedInRevision(es)
    ensures Run(s, es, max) == Some(s)
    decreases |es|
  {
    if es != [] {
      var e := es[0];
      assert Step(s, e, max) == Some(s);
      RevisionPasses(s, es[1..], max);
    }
  }

  lemma {:induction false} PagePasses(s: State, es: seq<Event>, inId: bool, max: int)
    requires s.status == (if inId then InPageId else InPage) && PassedInPage(es, inId)
    ensures Run(s, es, max) == Some(s.(status := InPage))
    decreases |es|
  {
    if es != [] {
      var e := es[0];
      var stays := if inId then e != End("id") else e == Start("id");
      assert Step(s, e, max) == Some(s.(status := if stays then InPageId else InPage));
      PagePasses(s.(status := if stays then InPageId else InPage), es[1..], stays, max);
    }
  }

  lemma {:induction false} TitleFills(s: State, es: seq<Event>, max: int)
    requires s.status == InPageTitle && s.title.Some? && Inside(es, "title")
    ensures Run(s, es, max) == Some(s.(title := Some(s.title.value + Text(es))))
    decreases |es|
  {
    if es == [] {
      assert s.title.value + "" == s.title.value;
    } else {
      var e := es[0];
      var chunk := if e.Data? then e.chunk else "";
      var t := s.(title := Some(s.title.value + chunk));
      assert s.title.value + "" == s.title.value;
      assert Step(s, e, max) == Some(t);
      TitleFills(t, es[1..], max);
      Assoc(s.title.value, chunk, Text(es[1..]));
    }
  }

  lemma {:induction false} TimestampFills(s: State, es: seq<Event>, max: int)
    requires s.status == InPageRevisionTimestamp && s.timestamp.Some? && Inside(es, "timestamp")
    ensures Run(s, es, max) == Some(s.(timestamp := Some(s.timestamp.value + Text(es))))
    decreases |es|
  {
    if es == [] {
      assert s.timestamp.value + "" == s.timestamp.value;
    } else {
      var e := es[0];
      var chunk := if e.Data? then e.chunk else "";
      var t := s.(timestamp := Some(s.timestamp.value + chunk));
      assert s.timestamp.value + "" == s.timestamp.value;
      assert Step(s, e, max) == Some(t);
      TimestampFills(t, es[1..], max);
      Assoc(s.timestamp.value, chunk, Text(es[1..]));
    }
  }

  lemma {:induction false} TextFills(s: State, es: seq<Event>, max: int)
    requires s.status == InPageRevisionText && s.body.Some? && Inside(es, "text")
    ensures Run(s, es, max) == Some(s.(body := Some(s.body.value + Text(es))))
    decreases |es|
  {
    if es == [] {
      assert s.body.value + "" == s.body.value;
    } else {
      var e := es[0];
      var chunk := if e.Data? then e.chunk else "";
      var t := s.(body := Some(s.body.value + chunk));
      assert s.body.value + "" == s.body.value;
      assert Step(s, e, max) == Some(t);
      TextFills(t, es[1..], max);
      Assoc(s.body.value, chunk, Text(es[1..]));
    }
  }

  // ---------------------------------------------------------------------------
  // The shape of a dump
  // ---------------------------------------------------------------------------

  /** A revision: a timestamp, then a text, with other events around them. */
  datatype Revision =
    Revision(before: seq<Event>, timestamp: seq<Event>, between: seq<Event>, text: seq<Event>, after: seq<Event>)

  /** A page: a title, then revisions; each revision is followed by other events. */
  datatype Page = Page(before: seq<Event>, title: seq<Event>, between: seq<Event>, revisions: seq<Followed<Revision>>)

  datatype Followed<T> = Followed(item: T, after: seq<Event>)

  datatype Dump = Dump(before: seq<Event>, pages: seq<Followed<Page>>)

  predicate RevisionOk(r: Revision)
  {
    && PassedInRevision(r.before) && PassedInRevision(r.between) && PassedInRevision(r.after)
    && Inside(r.timestamp, "timestamp") && Inside(r.text, "text")
  }

  predicate PageOk(p: Page)
  {
    && PassedInPage(p.before, false) && PassedInPage(p.between, false) && Inside(p.title, "title")
    && forall k :: 0 <= k < |p.revisions| ==>
          RevisionOk(p.revisions[k].item) && PassedInPage(p.revisions[k].after, false)
  }

  predicate PagesOk(pages: seq<Followed<Page>>)
  {
    forall k :: 0 <= k < |pages| ==> PageOk(pages[k].item) && PassedInDocument(pages[k].after)
  }

  predicate DumpOk(d: Dump)
  {
    PassedInDocument(d.before) && PagesOk(d.pages)
  }

  function Element(el: string, inside: seq<Event>): (es: seq<Event>)
  {
    [Start(el)] + inside + [End(el)]
  }

  function RevisionBody(r: Revision): (es: seq<Event>)
  {
    r.before + (Element("timestamp", r.timestamp) + (r.between + (Element("text", r.text) + r.after)))
  }

  function RevisionsEvents(rs: seq<Followed<Revision>>): (es: seq<Event>)
    decreases |rs|
  {
    if rs == [] then [] else Element("revision", RevisionBody(rs[0].item)) + (rs[0].after + RevisionsEvents(rs[1..]))
  }

  function PageBody(p: Page): (es: seq<Event>)
  {
    p.before + (Element("title", p.title) + (p.between + RevisionsEvents(p.revisions)))
  }

  function PagesEvents(pages: seq<Followed<Page>>): (es: seq<Event>)
    decreases |pages|
  {
    if pages == [] then [] else Element("page", PageBody(pages[0].item)) + (pages[0].after + PagesEvents(pages[1..]))
  }

  function DumpEvents(d: Dump): (es: seq<Event>)
  {
    d.before + PagesEvents(d.pages)
  }

  /** No page has a second revision. */
  predicate SingleRevisions(pages: seq<Followed<Page>>)
  {
    forall k :: 0 <= k < |pages| ==> |pages[k].item.revisions| <= 1
  }

  /** The articles of a dump: title, text and timestamp of every page that has a revision, in order. */
  function Articles(pages: seq<Followed<Page>>): (articles: seq<Article>)
    decreases |pages|
  {
    if pages == [] then [] else PageArticles(pages[0].item) + Articles(pages[1..])
  }

  function PageArticles(p: Page): (articles: seq<Article>)
  {
    if p.revisions == [] then []
    else [Article(Text(p.title), Text(p.revisions[0].item.text), Text(p.revisions[0].item.timestamp))]
  }

  /** The first `max` of the articles, or all of them when there is no limit. */
  function Cut(articles: seq<Article>, max: int): (r: seq<Article>)
  {
    if max < 0 || |articles| <= max then articles else articles[..max]
  }

  // ---------------------------------------------------------------------------
  // What elements do
  // ---------------------------------------------------------------------------

  /** Running an element: its start tag, its content, its end tag. */
  lemma RunElement(s: State, el: string, inside: seq<Event>, t: State, max: int)
    requires Run(Opened(s, el), inside, max) == Some(t)
    ensures Run(s, Element(el, inside), max) == Closed(t, el, max)
  {
    hide Opened, Closed, Run;
    RunConcat(s, [Start(el)] + inside, [End(el)], max);
    RunConcat(s, [Start(el)], inside, max);
    RunOne(s, Start(el), max);
    RunOne(t, End(el), max);
  }

  /** Running an element whose content fails. */
  lemma RunElementFails(s: State, el: string, inside: seq<Event>, max: int)
    requires Run(Opened(s, el), inside, max) == None
    ensures Run(s, Element(el, inside), max) == None
  {
    hide Opened, Closed, Run;
    RunConcat(s, [Start(el)] + inside, [End(el)], max);
    RunConcat(s, [Start(el)], inside, max);
    RunOne(s, Start(el), max);
  }

  lemma RunTitle(s: State, es: seq<Event>, max: int)
    requires s.status == InPage && Inside(es, "title")
    ensures Run(s, Element("title", es), max) == Some(s.(title := Some(Text(es))))
  {
    hide Run, Inside, Text;
    TitleFills(Opened(s, "title"), es, max);
    assert "" + Text(es) == Text(es);
    RunElement(s, "title", es, s.(status := InPageTitle, title := Some(Text(es))), max);
  }

  lemma RunTimestamp(s: State, es: seq<Event>, max: int)
    requires s.status == InPageRevision && Inside(es, "timestamp")
    ensures Run(s, Element("timestamp", es), max) == Some(s.(timestamp := Some(Text(es))))
  {
    hide Run, Inside, Text;
    TimestampFills(Opened(s, "timestamp"), es, max);
    assert "" + Text(es) == Text(es);
    RunElement(s, "timestamp", es, s.(status := InPageRevisionTimestamp, timestamp := Some(Text(es))), max);
  }

  lemma RunText(s: State, es: seq<Event>, max: int)
    requires s.status == InPageRevision && Inside(es, "text")
    ensures Run(s, Element("text", es), max) == Delivered(s.(body := Some(Text(es))), max)
  {
    hide Run, Inside, Text;
    TextFills(Opened(s, "text"), es, max);
    assert "" + Text(es) == Text(es);
    var t := s.(status := InPageRevisionText, body := Some(Text(es)));
    RunElement(s, "text", es, t, max);
  }

  /** A run that starts with events leading from `s` to `t`. */
  lemma RunThen(s: State, a: seq<Event>, t: State, b: seq<Event>, max: int)
    requires Run(s, a, max) == Some(t)
    ensures Run(s, a + b, max) == Run(t, b, max)
  {
    hide Run;
    RunConcat(s, a, b, max);
  }

  /** A revision delivers its article if a title is there, and otherwise uses a NULL title. */
  lemma RunRevision(s: State, r: Revision, max: int)
    requires s.status == InPage && RevisionOk(r)
    ensures Run(s, Element("revision", RevisionBody(r)), max)
         == match Delivered(s.(body := Some(Text(r.text)), timestamp := Some(Text(r.timestamp))), max)
            case None => None
            case Some(t) => Some(t.(status := InPage))
  {
    hide Run, PassedInRevision, Inside, Text, Element, Delivered;
    var s0 := s.(status := InPageRevision);
    var s1 := s0.(timestamp := Some(Text(r.timestamp)));
    var last := Element("text", r.text) + r.after;
    RevisionPasses(s0, r.before, max);
    RunThen(s0, r.before, s0, Element("timestamp", r.timestamp) + (r.between + last), max);
    RunTimestamp(s0, r.timestamp, max);
    RunThen(s0, Element("timestamp", r.timestamp), s1, r.between + last, max);
    RevisionPasses(s1, r.between, max);
    RunThen(s1, r.between, s1, last, max);
    RunText(s1, r.text, max);
    var filled := s.(body := Some(Text(r.text)), timestamp := Some(Text(r.timestamp)));
    DeliveredIgnoresStatus(s1.(body := Some(Text(r.text))), filled, max);
    match Delivered(filled, max)
    case None =>
      RunConcat(s1, Element("text", r.text), r.after, max);
      RunElementFails(s, "revision", RevisionBody(r), max);
    case Some(t) =>
      DeliveredStatus(filled, max);
      RunThen(s1, Element("text", r.text), t, r.after, max);
      RevisionPasses(t, r.after, max);
      RunElement(s, "revision", RevisionBody(r), t, max);
  }

  lemma DeliveredIgnoresStatus(s: State, t: State, max: int)
    requires s == t.(status := s.status)
    ensures Delivered(s, max) == Delivered(t, max)
  {
  }

  lemma DeliveredStatus(s: State, max: int)
    ensures Delivered(s, max).Some? ==> Delivered(s, max).value.status == InPageRevision
  {
  }

  /** Between pages: the limit has been applied to the articles read so far. */
  predicate Done(s: State, articles: seq<Article>, max: int)
  {
    s.status == InDocument && s.articleCount == |articles| && s.documents == Cut(articles, max)
  }

  lemma CutNext(articles: seq<Article>, article: Article, max: int)
    ensures Cut(articles + [article], max)
         == if max < 0 || |articles| < max then Cut(articles, max) + [article] else Cut(articles, max)
  {
    if 0 <= max && max < |articles| + 1 {
      assert (articles + [article])[..max] == articles[..max];
    }
  }

  /** One revision fits a page with a title; any further one meets the title that has been dropped. */
  lemma RunRevisions(s: State, rs: seq<Followed<Revision>>, title: string, max: int)
    requires s.status == InPage && s.title == Some(title) && |rs| <= 1
    requires forall k :: 0 <= k < |rs| ==> RevisionOk(rs[k].item) && PassedInPage(rs[k].after, false)
    ensures rs == [] ==> Run(s, RevisionsEvents(rs), max) == Some(s)
    ensures |rs| == 1 ==>
      Run(s, RevisionsEvents(rs), max) ==
        Some(State(InPage, None, None, None, s.articleCount + 1,
                   if max < 0 || s.articleCount < max
                   then s.documents + [Article(title, Text(rs[0].item.text), Text(rs[0].item.timestamp))]
                   else s.documents))
  {
    hide RevisionOk, PassedInPage, Element, Text, RevisionBody;
    if rs != [] {
      assert rs[1..] == [];
      assert RevisionsEvents(rs) == Element("revision", RevisionBody(rs[0].item)) + rs[0].after;
      RunRevision(s, rs[0].item, max);
      var t := Run(s, Element("revision", RevisionBody(rs[0].item)), max).value;
      RunThen(s, Element("revision", RevisionBody(rs[0].item)), t, rs[0].after, max);
      PagePasses(t, rs[0].after, false, max);
    }
  }

  lemma RunMoreRevisions(s: State, rs: seq<Followed<Revision>>, title: string, max: int)
    requires s.status == InPage && s.title == Some(title) && |rs| >= 2
    requires forall k :: 0 <= k < |rs| ==> RevisionOk(rs[k].item) && PassedInPage(rs[k].after, false)
    ensures Run(s, RevisionsEvents(rs), max) == None
  {
    hide RevisionOk, PassedInPage, Element, Text, RevisionBody, Run;
    var first := RevisionsEvents(rs[..1]);
    RunRevisions(s, rs[..1], title, max);
    assert rs[..1][0] == rs[0] && rs[..1][1..] == [];
    var head := Element("revision", RevisionBody(rs[0].item));
    assert first == head + rs[0].after;
    var rest := RevisionsEvents(rs[1..]);
    Assoc(head, rs[0].after, rest);
    var t := Run(s, first, max).value;
    RunThen(s, first, t, rest, max);
    assert rs[1..][0] == rs[1];
    RunRevision(t, rs[1].item, max);
    RunConcat(t, Element("revision", RevisionBody(rs[1].item)), rs[1].after + RevisionsEvents(rs[1..][1..]), max);
  }

  /** Up to the revisions of a page, only the title has changed. */
  lemma RunPageStart(s: State, p: Page, max: int)
    requires s.status == InPage && PageOk(p)
    ensures Run(s, PageBody(p), max) == Run(s.(title := Some(Text(p.title))), RevisionsEvents(p.revisions), max)
  {
    hide Run, PassedInPage, Inside, Element, Text, RevisionsEvents, RevisionOk;
    var t := s.(title := Some(Text(p.title)));
    var revisions := RevisionsEvents(p.revisions);
    PagePasses(s, p.before, false, max);
    RunThen(s, p.before, s, Element("title", p.title) + (p.between + revisions), max);
    RunTitle(s, p.title, max);
    RunThen(s, Element("title", p.title), t, p.between + revisions, max);
    PagePasses(t, p.between, false, max);
    RunThen(t, p.between, t, revisions, max);
  }

  lemma RunPage(s: State, p: Page, done: seq<Article>, max: int)
    requires Done(s, done, max) && PageOk(p)
    ensures var r := Run(s, Element("page", PageBody(p)), max);
            if |p.revisions| <= 1 then r.Some? && Done(r.value, done + PageArticles(p), max) else r == None
  {
    hide Run, PassedInPage, Inside, Element, Text, RevisionsEvents, RevisionOk, PageBody, Cut;
    var s0 := s.(status := InPage);
    var s1 := s0.(title := Some(Text(p.title)));
    RunPageStart(s0, p, max);
    if |p.revisions| <= 1 {
      RunRevisions(s1, p.revisions, Text(p.title), max);
      var t := Run(s1, RevisionsEvents(p.revisions), max).value;
      RunElement(s, "page", PageBody(p), t, max);
      if p.revisions == [] {
        assert done + PageArticles(p) == done;
      } else {
        CutNext(done, PageArticles(p)[0], max);
      }
    } else {
      RunMoreRevisions(s1, p.revisions, Text(p.title), max);
      RunElementFails(s, "page", PageBody(p), max);
    }
  }

  lemma {:induction false} RunPages(s: State, pages: seq<Followed<Page>>, done: seq<Article>, max: int)
    requires Done(s, done, max) && PagesOk(pages)
    ensures var r := Run(s, PagesEvents(pages), max);
            if SingleRevisions(pages) then r.Some? && Done(r.value, done + Articles(pages), max) else r == None
    decreases |pages|
  {
    hide Run, PageOk, PassedInDocument, Element, PageBody, Cut, PageArticles;
    if pages == [] {
      assert done + [] == done;
      assert Run(s, [], max) == Some(s) by {
        RunEmpty(s, max);
      }
    } else {
      var page, after, rest := pages[0].item, pages[0].after, PagesEvents(pages[1..]);
      var first := Element("page", PageBody(page));
      RunPage(s, page, done, max);
      RunConcat(s, first, after + rest, max);
      assert SingleRevisions(pages) <==> |page.revisions| <= 1 && SingleRevisions(pages[1..]) by {
        SingleSplit(pages);
      }
      if |page.revisions| <= 1 {
        var t := Run(s, first, max).value;
        DocumentPasses(t, after, max);
        RunThen(t, after, t, rest, max);
        RunPages(t, pages[1..], done + PageArticles(page), max);
        Assoc(done, PageArticles(page), Articles(pages[1..]));
      }
    }
  }

  lemma RunEmpty(s: State, max: int)
    ensures Run(s, [], max) == Some(s)
  {
  }

  lemma SingleSplit(pages: seq<Followed<Page>>)
    requires pages != []
    ensures SingleRevisions(pages) <==> |pages[0].item.revisions| <= 1 && SingleRevisions(pages[1..])
  {
    assert forall k :: 0 <= k < |pages[1..]| ==> pages[1..][k] == pages[k + 1];
    if |pages[0].item.revisions| <= 1 && SingleRevisions(pages[1..]) {
      forall k | 0 <= k < |pages|
        ensures |pages[k].item.revisions| <= 1
      {
        if k > 0 {
          assert pages[k] == pages[1..][k - 1];
        }
      }
    }
  }

  /**
   Reading a dump: without a second revision in any page, the callback gets exactly the articles, in order and
   up to the limit, however the character data was cut; a second revision always meets a NULL title.
   */
  lemma RunDump(d: Dump, max: int)
    requires DumpOk(d)
    ensures Run(INITIAL, DumpEvents(d), max).Some? <==> SingleRevisions(d.pages)
    ensures SingleRevisions(d.pages) ==> Done(Run(INITIAL, DumpEvents(d), max).value, Articles(d.pages), max)
  {
    hide Run, PassedInDocument, PagesOk, SingleRevisions;
    DocumentPasses(INITIAL, d.before, max);
    RunThen(INITIAL, d.before, INITIAL, PagesEvents(d.pages), max);
    assert Cut([], max) == [];
    assert [] + Articles(d.pages) == Articles(d.pages);
    RunPages(INITIAL, d.pages, [], max);
  }

  // ---------------------------------------------------------------------------
  // The handlers
  // ---------------------------------------------------------------------------

  class WikipediaParser {
    var status: Status
    var title: Option<string>
    var body: Option<string>
    var timestamp: Option<string>
    var articleCount: nat
    const maxArticleCount: int
    var documents: seq<Article>

    ghost function Value(): (s: State)
      reads this
    {
      State(status, title, body, timestamp, articleCount, documents)
    }

    constructor (max: int)
      ensures Value() == INITIAL && maxArticleCount == max
    {
      status, title, body, timestamp := InDocument, None, None, None;
      articleCount, maxArticleCount, documents := 0, max, [];
    }

    method StartElement(el: string)
      modifies this
      ensures Value() == Opened(old(Value()), el)
    {
      match status
      case InDocument =>
        if el == "page" {
          status := InPage;
        }
      case InPage =>
        if el == "title" {
          status := InPageTitle;
          title := Some("");
        } else if el == "id" {
          status := InPageId;
        } else if el == "revision" {
          status := InPageRevision;
        }
      case InPageRevision =>
        if el == "timestamp" {
          status := InPageRevisionTimestamp;
          timestamp := Some("");
        } else if el == "text" {
          status := InPageRevisionText;
          body := Some("");
        }
      case _ =>
    }

    method EndElement(el: string)
      requires Closed(Value(), el, maxArticleCount).Some?
      modifies this
      ensures Some(Value()) == Closed(old(Value()), el, maxArticleCount)
    {
      match status
      case InDocument =>
      case InPage =>
        if el == "page" {
          status := InDocument;
        }
      case InPageTitle =>
        if el == "title" {
          status := InPage;
        }
      case InPageId =>
        if el == "id" {
          status := InPage;
        }
      case InPageRevision =>
        if el == "revision" {
          status := InPage;
        }
      case InPageRevisionTimestamp =>
        if el == "timestamp" {
          status := InPageRevision;
        }
        // This case has no break: the next one follows.
        EndText(el);
      case InPageRevisionText =>
        EndText(el);
    }

    method EndText(el: string)
      requires el == "text" ==> title.Some? && body.Some? && timestamp.Some?
      modifies this
      ensures el == "text" ==> Some(Value()) == Delivered(old(Value()), maxArticleCount)
      ensures el != "text" ==> Value() == old(Value())
    {
      if el == "text" {
        status := InPageRevision;
        if maxArticleCount < 0 || articleCount < maxArticleCount {
          documents := documents + [Article(title.value, body.value, timestamp.value)];
        }
        title, body, timestamp := None, None, None;
        articleCount := articleCount + 1;
      }
    }

    method ElementData(chunk: string)
      requires Added(Value(), chunk).Some?
      modifies this
      ensures Some(Value()) == Added(old(Value()), chunk)
    {
      match status
      case InPageTitle => title := Some(title.value + chunk);
      case InPageRevisionTimestamp => timestamp := Some(timestamp.value + chunk);
      case InPageRevisionText => body := Some(body.value + chunk);
      case _ =>
    }

    /** What the XML library calls for the events of one buffer. */
    method Parse(events: seq<Event>)
      requires Run(Value(), events, maxArticleCount).Some?
      modifies this
      ensures Some(Value()) == Run(old(Value()), events, maxArticleCount)
    {
      hide Opened, Closed, Added;
      var i := 0;
      while i < |events|
        invariant 0 <= i <= |events|
        invariant Run(Value(), events[i..], maxArticleCount) == Run(old(Value()), events, maxArticleCount)
      {
        assert events[i..][0] == events[i] && events[i..][1..] == events[i + 1..];
        match events[i] {
          case Start(el) => StartElement(el);
          case End(el) => EndElement(el);
          case Data(chunk) => ElementData(chunk);
        }
        i := i + 1;
      }
    }
  }

  function Joined(buffers: seq<seq<Event>>): (es: seq<Event>)
    decreases |buffers|
  {
    if buffers == [] then [] else buffers[0] + Joined(buffers[1..])
  }

  /**
   load_wikipedia_dump on a readable, well-formed file, given as the events of each buffer read. Stopping after
   the buffer in which the limit was reached loses nothing.
   */
  method LoadWikipediaDump(buffers: seq<seq<Event>>, maxArticleCount: int, ghost d: Dump)
      returns (documents: seq<Article>)
    requires DumpOk(d) && SingleRevisions(d.pages) && Joined(buffers) == DumpEvents(d)
    ensures documents == Cut(Articles(d.pages), maxArticleCount)
  {
    hide Run, DumpOk, SingleRevisions, DumpEvents;
    RunDump(d, maxArticleCount);
    var wp := new WikipediaParser(maxArticleCount);
    ghost var last := Run(INITIAL, Joined(buffers), maxArticleCount);
    var i := 0;
    while i < |buffers|
      invariant 0 <= i <= |buffers|
      invariant Run(wp.Value(), Joined(buffers[i..]), maxArticleCount) == last
    {
      assert buffers[i..][0] == buffers[i] && buffers[i..][1..] == buffers[i + 1..];
      RunConcat(wp.Value(), buffers[i], Joined(buffers[i + 1..]), maxArticleCount);
      wp.Parse(buffers[i]);
      i := i + 1;
      if maxArticleCount >= 0 && maxArticleCount <= wp.articleCount {
        Saturated(wp.Value(), Joined(buffers[i..]), maxArticleCount);
        return wp.documents;
      }
    }
    RunEmpty(wp.Value(), maxArticleCount);
    return wp.documents;
  }
}
