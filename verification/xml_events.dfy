/**
 * What the XML callbacks make of a document
 * (client/moonlight-embedded-mod/libgamestream/xml.c).
 *
 * A document is a tree; the parser turns it into balanced start and end events
 * (section 2.1 of XML 1.0) and may cut every text into any chunks.
 */
module XmlEvents {
  import opened Text

  datatype Node = Chunks(chunks: seq<string>) | Element(name: string, kids: seq<Node>)

  datatype Event = Start(name: string) | End(name: string) | Chars(s: string)

  function Events(n: Node): seq<Event>
    decreases n, 1
  {
    match n
    case Chunks(cs) => seq(|cs|, i requires 0 <= i < |cs| => Chars(cs[i]))
    case Element(name, kids) => [Start(name)] + EventsOf(kids) + [End(name)]
  }

  function EventsOf(ns: seq<Node>): seq<Event>
    decreases ns, 0
  {
    if ns == [] then [] else Events(ns[0]) + EventsOf(ns[1..])
  }

  function Joined(cs: seq<string>): string {
    if cs == [] then "" else cs[0] + Joined(cs[1..])
  }

  // ----- the query object -----

  /** app->name is null until a title was read. */
  datatype App = App(id: int, name: Option<string>)

  /**
   * A struct xml_query. `memory` is None while it points to uninitialised memory;
   * `data` is the sought name in a search, and the list, newest first, otherwise.
   */
  datatype Query = Query(memory: Option<string>, start: int, apps: seq<App>)

  function Memory(q: Query): string {
    if q.memory.Some? then q.memory.value else ""
  }

  function WriteData(q: Query, s: string): Query {
    if q.start > 0 then q.(memory := Some(Memory(q) + s)) else q
  }

  function SearchStep(q: Query, sought: string, e: Event): Query {
    match e
    case Start(name) => if name == sought then q.(start := q.start + 1) else q
    case End(name) => if name == sought then q.(start := q.start - 1) else q
    case Chars(s) => WriteData(q, s)
  }

  /** `junk` is the string found in memory that nobody wrote to. */
  function Found(q: Query, junk: string): string {
    if q.memory.Some? then q.memory.value else junk
  }

  function AppsStep(q: Query, junk: string, e: Event): Query {
    match e
    case Start(name) =>
      if name == "App" then q.(apps := [App(0, None)] + q.apps)
      else if name == "ID" || name == "AppTitle" then q.(memory := None, start := 1)
      else q
    case End(name) =>
      if q.start == 0 || q.apps == [] then q
      else
        var app := q.apps[0];
        var app' := if name == "ID" then app.(id := Atoi(Found(q, junk)))
                    else if name == "AppTitle" then app.(name := Some(Found(q, junk)))
                    else app;
        q.(apps := [app'] + q.apps[1..], start := 0)
    case Chars(s) => WriteData(q, s)
  }

  function Search(q: Query, sought: string, es: seq<Event>): Query
    decreases |es|
  {
    if es == [] then q else Search(SearchStep(q, sought, es[0]), sought, es[1..])
  }

  function Collect(q: Query, junk: string, es: seq<Event>): Query
    decreases |es|
  {
    if es == [] then q else Collect(AppsStep(q, junk, es[0]), junk, es[1..])
  }

  /** The struct and its callbacks, as the source updates it. */
  class XmlQuery {
    var memory: Option<string>
    var size: nat
    var start: int
    var apps: seq<App>

    constructor ()
      ensures Value() == Query(Some(""), 0, []) && Sized()
    {
      memory, size, start, apps := Some(""), 0, 0, [];
    }

    ghost function Value(): Query
      reads this
    {
      Query(memory, start, apps)
    }

    /** size counts what was written. */
    ghost predicate Sized()
      reads this
    {
      size == if memory.Some? then |memory.value| else 0
    }

    method StartElement(sought: string, name: string)
      modifies this
      ensures Value() == SearchStep(old(Value()), sought, Start(name)) && (old(Sized()) ==> Sized())
    {
      if name == sought {
        start := start + 1;
      }
    }

    method EndElement(sought: string, name: string)
      modifies this
      ensures Value() == SearchStep(old(Value()), sought, End(name)) && (old(Sized()) ==> Sized())
    {
      if name == sought {
        start := start - 1;
      }
    }

    method WriteChars(s: string)
      requires Sized()
      modifies this
      ensures Value() == WriteData(old(Value()), s) && Sized()
    {
      if start > 0 {
        assert memory.Some? ==> memory.value[..size] == memory.value;
        memory := Some((if memory.Some? then memory.value[..size] else "") + s);
        size := size + |s|;
      }
    }

    method StartApplistElement(name: string)
      modifies this
      ensures forall junk :: Value() == AppsStep(old(Value()), junk, Start(name))
      ensures old(Sized()) ==> Sized()
    {
      if name == "App" {
        apps := [App(0, None)] + apps;
      } else if name == "ID" || name == "AppTitle" {
        memory := None;
        size := 0;
        start := 1;
      }
    }

    method EndApplistElement(junk: string, name: string)
      modifies this
      ensures Value() == AppsStep(old(Value()), junk, End(name)) && (old(Sized()) ==> Sized())
    {
      if start != 0 {
        if apps == [] {
          return;
        }
        if name == "ID" {
          apps := [apps[0].(id := Atoi(if memory.Some? then memory.value else junk))] + apps[1..];
        } else if name == "AppTitle" {
          apps := [apps[0].(name := Some(if memory.Some? then memory.value else junk))] + apps[1..];
        }
        start := 0;
      }
    }
  }

  method XmlSearch(es: seq<Event>, node: string) returns (result: string)
    ensures result == Memory(Search(Query(Some(""), 0, []), node, es))
  {
    var q := new XmlQuery();
    assert es[0..] == es;
    for i := 0 to |es|
      invariant q.Sized() && fresh(q)
      invariant Search(Query(Some(""), 0, []), node, es) == Search(q.Value(), node, es[i..])
      invariant q.memory.Some?
    {
      assert es[i..][1..] == es[i + 1..];
      match es[i] {
        case Start(name) => q.StartElement(node, name);
        case End(name) => q.EndElement(node, name);
        case Chars(s) => q.WriteChars(s);
      }
    }
    return q.memory.value;
  }

  method XmlApplist(es: seq<Event>, junk: string) returns (apps: seq<App>)
    ensures apps == Collect(Query(Some(""), 0, []), junk, es).apps
  {
    var q := new XmlQuery();
    assert es[0..] == es;
    for i := 0 to |es|
      invariant q.Sized() && fresh(q)
      invariant Collect(Query(Some(""), 0, []), junk, es) == Collect(q.Value(), junk, es[i..])
    {
      assert es[i..][1..] == es[i + 1..];
      match es[i] {
        case Start(name) => q.StartApplistElement(name);
        case End(name) => q.EndApplistElement(junk, name);
        case Chars(s) => q.WriteChars(s);
      }
    }
    return q.apps;
  }

  // ----- xml_search agrees with a reading of the tree -----

  /** A piece of text with the names of the elements it lies in. */
  datatype Piece = Piece(path: seq<string>, text: string)

  function Pieces(n: Node, path: seq<string>): seq<Piece>
    decreases n, 1
  {
    match n
    case Chunks(cs) => [Piece(path, Joined(cs))]
    case Element(name, kids) => PiecesOf(kids, path + [name])
  }

  function PiecesOf(ns: seq<Node>, path: seq<string>): seq<Piece>
    decreases ns, 0
  {
    if ns == [] then [] else Pieces(ns[0], path) + PiecesOf(ns[1..], path)
  }

  /** The text of the pieces that lie under an element of the given name, in order. */
  function TextUnder(ps: seq<Piece>, sought: string): string {
    if ps == [] then "" else (if sought in ps[0].path then ps[0].text else "") + TextUnder(ps[1..], sought)
  }

  lemma {:induction false} TextUnderConcat(ps: seq<Piece>, qs: seq<Piece>, sought: string)
    ensures TextUnder(ps + qs, sought) == TextUnder(ps, sought) + TextUnder(qs, sought)
  {
    if ps == [] {
      assert ps + qs == qs;
    } else {
      assert (ps + qs)[1..] == ps[1..] + qs;
      TextUnderConcat(ps[1..], qs, sought);
    }
  }

  lemma TextUnderOne(p: Piece, sought: string)
    ensures TextUnder([p], sought) == if sought in p.path then p.text else ""
  {
    assert [p][1..] == [];
    assert p.text + "" == p.text && "" + "" == "";
  }

  lemma {:induction false} SearchConcat(q: Query, sought: string, es: seq<Event>, fs: seq<Event>)
    ensures Search(q, sought, es + fs) == Search(Search(q, sought, es), sought, fs)
    decreases |es|
  {
    if es == [] {
      assert es + fs == fs;
    } else {
      assert (es + fs)[1..] == es[1..] + fs;
      SearchConcat(SearchStep(q, sought, es[0]), sought, es[1..], fs);
    }
  }

  /** What a stretch of the document adds to the query: text, and nothing else. */
  function Extended(q: Query, text: string): Query {
    q.(memory := Some(Memory(q) + text))
  }

  lemma ExtendedTwice(q: Query, a: string, b: string)
    ensures Extended(Extended(q, a), b) == Extended(q, a + b)
  {
    assert (Memory(q) + a) + b == Memory(q) + (a + b);
  }

  lemma {:induction false} SearchChunks(q: Query, sought: string, cs: seq<string>)
    requires q.memory.Some?
    ensures Search(q, sought, Events(Chunks(cs))) == Extended(q, if q.start > 0 then Joined(cs) else "")
    decreases |cs|
  {
    var es := Events(Chunks(cs));
    if cs != [] {
      assert es[1..] == Events(Chunks(cs[1..]));
      SearchChunks(SearchStep(q, sought, es[0]), sought, cs[1..]);
      assert (Memory(q) + cs[0]) + Joined(cs[1..]) == Memory(q) + Joined(cs);
    }
    assert Memory(q) + "" == Memory(q);
  }

  lemma {:induction false} SearchNode(q: Query, sought: string, n: Node, path: seq<string>)
    requires q.memory.Some? && q.start >= 0 && (q.start > 0 <==> sought in path)
    ensures Search(q, sought, Events(n)) == Extended(q, TextUnder(Pieces(n, path), sought))
    decreases n, 1
  {
    match n
    case Chunks(cs) =>
      SearchChunks(q, sought, cs);
      assert Pieces(n, path)[1..] == [];
      TextUnderOne(Pieces(n, path)[0], sought);
    case Element(name, kids) =>
      var q1 := SearchStep(q, sought, Start(name));
      SearchConcat(q, sought, [Start(name)] + EventsOf(kids), [End(name)]);
      SearchConcat(q, sought, [Start(name)], EventsOf(kids));
      SearchOne(q, sought, Start(name));
      SearchNodes(q1, sought, kids, path + [name]);
      SearchOne(Search(q1, sought, EventsOf(kids)), sought, End(name));
  }

  lemma SearchOne(q: Query, sought: string, e: Event)
    ensures Search(q, sought, [e]) == SearchStep(q, sought, e)
  {
    assert [e][1..] == [];
  }

  lemma {:induction false} SearchNodes(q: Query, sought: string, ns: seq<Node>, path: seq<string>)
    requires q.memory.Some? && q.start >= 0 && (q.start > 0 <==> sought in path)
    ensures Search(q, sought, EventsOf(ns)) == Extended(q, TextUnder(PiecesOf(ns, path), sought))
    decreases ns, 0
  {
    if ns != [] {
      var a, b := TextUnder(Pieces(ns[0], path), sought), TextUnder(PiecesOf(ns[1..], path), sought);
      SearchConcat(q, sought, Events(ns[0]), EventsOf(ns[1..]));
      SearchNode(q, sought, ns[0], path);
      SearchNodes(Extended(q, a), sought, ns[1..], path);
      TextUnderConcat(Pieces(ns[0], path), PiecesOf(ns[1..], path), sought);
      ExtendedTwice(q, a, b);
    } else {
      assert Memory(q) + "" == Memory(q);
    }
  }

  /**
   * On every document, however the sought elements are nested and the text is cut,
   * xml_search finds the text under them, in order, and its depth returns to zero.
   */
  lemma SearchFindsText(doc: Node, sought: string)
    ensures var q := Search(Query(Some(""), 0, []), sought, Events(doc));
            q.memory == Some(TextUnder(Pieces(doc, []), sought)) && q.start == 0
  {
    SearchNode(Query(Some(""), 0, []), sought, doc, []);
    assert "" + TextUnder(Pieces(doc, []), sought) == TextUnder(Pieces(doc, []), sought);
  }

  // ----- xml_applist agrees with a reading of the tree -----

  predicate Watched(name: string) { name == "ID" || name == "AppTitle" }

  predicate TextOnly(ns: seq<Node>) {
    forall k :: 0 <= k < |ns| ==> ns[k].Chunks?
  }

  /** The parser reports some text, be it empty. */
  predicate HasText(ns: seq<Node>)
    requires TextOnly(ns)
  {
    ns != [] && (ns[0].chunks != [] || HasText(ns[1..]))
  }

  /** Text, or an element with only text in it. */
  predicate Field(n: Node) {
    n.Element? ==> n.name != "App" && TextOnly(n.kids)
  }

  predicate AppElement(n: Node) {
    n.Element? && n.name == "App" && forall k :: 0 <= k < |n.kids| ==> Field(n.kids[k])
  }

  /** What stands between the apps: text and unwatched leaf elements. */
  predicate Filler(n: Node) {
    Field(n) && (n.Element? ==> !Watched(n.name))
  }

  function TextOf(ns: seq<Node>): string
    requires TextOnly(ns)
  {
    if ns == [] then "" else Joined(ns[0].chunks) + TextOf(ns[1..])
  }

  /** What is read from an element's text. */
  function Read(ns: seq<Node>, junk: string): string
    requires TextOnly(ns)
  {
    if HasText(ns) then TextOf(ns) else junk
  }

  /** What the last field of that name holds. */
  function LastField(fields: seq<Node>, name: string): (r: Option<seq<Node>>)
    requires forall k :: 0 <= k < |fields| ==> Field(fields[k])
    ensures r.Some? ==> TextOnly(r.value)
  {
    if fields == [] then None
    else
      var f := fields[|fields| - 1];
      assert Field(f);
      if f.Element? && f.name == name then Some(f.kids) else LastField(fields[..|fields| - 1], name)
  }

  function AppOf(fields: seq<Node>, junk: string): App
    requires forall k :: 0 <= k < |fields| ==> Field(fields[k])
  {
    var id, title := LastField(fields, "ID"), LastField(fields, "AppTitle");
    App(if id.Some? then Atoi(Read(id.value, junk)) else 0,
        if title.Some? then Some(Read(title.value, junk)) else None)
  }

  /** The apps of a list, in document order. */
  function AppsIn(ns: seq<Node>, junk: string): seq<App>
    requires forall k :: 0 <= k < |ns| ==> AppElement(ns[k]) || Filler(ns[k])
  {
    if ns == [] then []
    else (if AppElement(ns[0]) then [AppOf(ns[0].kids, junk)] else []) + AppsIn(ns[1..], junk)
  }

  lemma {:induction false} CollectConcat(q: Query, junk: string, es: seq<Event>, fs: seq<Event>)
    ensures Collect(q, junk, es + fs) == Collect(Collect(q, junk, es), junk, fs)
    decreases |es|
  {
    if es == [] {
      assert es + fs == fs;
    } else {
      assert (es + fs)[1..] == es[1..] + fs;
      CollectConcat(AppsStep(q, junk, es[0]), junk, es[1..], fs);
    }
  }

  lemma CollectOne(q: Query, junk: string, e: Event)
    ensures Collect(q, junk, [e]) == AppsStep(q, junk, e)
  {
    assert [e][1..] == [];
  }

  lemma {:induction false} CollectChunks(q: Query, junk: string, cs: seq<string>)
    ensures Collect(q, junk, Events(Chunks(cs)))
            == if q.start > 0 && cs != [] then Extended(q, Joined(cs)) else q
    decreases |cs|
  {
    if cs != [] {
      var es := Events(Chunks(cs));
      assert es[1..] == Events(Chunks(cs[1..]));
      CollectChunks(AppsStep(q, junk, es[0]), junk, cs[1..]);
      assert (Memory(q) + cs[0]) + Joined(cs[1..]) == Memory(q) + Joined(cs);
      assert cs[0] + "" == cs[0];
    }
  }

  lemma {:induction false} CollectIdle(q: Query, junk: string, ns: seq<Node>)
    requires q.start == 0 && TextOnly(ns)
    ensures Collect(q, junk, EventsOf(ns)) == q
    decreases |ns|
  {
    if ns != [] {
      CollectConcat(q, junk, Events(ns[0]), EventsOf(ns[1..]));
      CollectChunks(q, junk, ns[0].chunks);
      CollectIdle(q, junk, ns[1..]);
    }
  }

  lemma {:induction false} CollectText(q: Query, junk: string, ns: seq<Node>)
    requires q.start > 0 && TextOnly(ns)
    ensures Collect(q, junk, EventsOf(ns)) == if q.memory.Some? || HasText(ns) then Extended(q, TextOf(ns)) else q
    decreases |ns|
  {
    if ns == [] {
      assert Memory(q) + "" == Memory(q);
    } else {
      var chunks, rest := ns[0].chunks, ns[1..];
      var q1 := Collect(q, junk, Events(ns[0]));
      CollectConcat(q, junk, Events(ns[0]), EventsOf(rest));
      CollectChunks(q, junk, chunks);
      CollectText(q1, junk, rest);
      if chunks == [] {
        assert q1 == q && "" + TextOf(rest) == TextOf(rest);
      } else {
        ExtendedTwice(q, Joined(chunks), TextOf(rest));
      }
    }
  }

  /** One field of the app at the head of the list. */
  function WithField(a: App, f: Node, junk: string): App
    requires Field(f)
  {
    if f.Chunks? then a
    else if f.name == "ID" then a.(id := Atoi(Read(f.kids, junk)))
    else if f.name == "AppTitle" then a.(name := Some(Read(f.kids, junk)))
    else a
  }

  lemma CollectField(q: Query, junk: string, f: Node)
    requires Field(f) && q.start == 0 && q.apps != []
    ensures var r := Collect(q, junk, Events(f));
            r.start == 0 && r.apps == [WithField(q.apps[0], f, junk)] + q.apps[1..]
  {
    if f.Chunks? {
      CollectChunks(q, junk, f.chunks);
    } else {
      var q1 := AppsStep(q, junk, Start(f.name));
      CollectConcat(q, junk, [Start(f.name)] + EventsOf(f.kids), [End(f.name)]);
      CollectConcat(q, junk, [Start(f.name)], EventsOf(f.kids));
      CollectOne(q, junk, Start(f.name));
      if Watched(f.name) { CollectText(q1, junk, f.kids); } else { CollectIdle(q1, junk, f.kids); }
      CollectOne(Collect(q1, junk, EventsOf(f.kids)), junk, End(f.name));
      if Watched(f.name) {
        assert "" + TextOf(f.kids) == TextOf(f.kids);
      }
    }
  }

  lemma CollectFiller(q: Query, junk: string, f: Node)
    requires Filler(f) && q.start == 0
    ensures var r := Collect(q, junk, Events(f)); r.start == 0 && r.apps == q.apps
  {
    if f.Chunks? {
      CollectChunks(q, junk, f.chunks);
    } else {
      CollectConcat(q, junk, [Start(f.name)] + EventsOf(f.kids), [End(f.name)]);
      CollectConcat(q, junk, [Start(f.name)], EventsOf(f.kids));
      CollectOne(q, junk, Start(f.name));
      CollectIdle(q, junk, f.kids);
      CollectOne(q, junk, End(f.name));
    }
  }

  lemma {:induction false} EventsOfConcat(ms: seq<Node>, ns: seq<Node>)
    ensures EventsOf(ms + ns) == EventsOf(ms) + EventsOf(ns)
    decreases |ms|
  {
    if ms == [] {
      assert ms + ns == ns;
    } else {
      assert (ms + ns)[1..] == ms[1..] + ns;
      EventsOfConcat(ms[1..], ns);
    }
  }

  lemma {:induction false} CollectFields(q: Query, junk: string, fields: seq<Node>)
    requires forall k :: 0 <= k < |fields| ==> Field(fields[k])
    requires q.start == 0 && q.apps != [] && q.apps[0] == App(0, None)
    ensures var r := Collect(q, junk, EventsOf(fields));
            r.start == 0 && r.apps == [AppOf(fields, junk)] + q.apps[1..]
    decreases |fields|
  {
    if fields != [] {
      var init, f := fields[..|fields| - 1], fields[|fields| - 1];
      assert fields == init + [f];
      EventsOfConcat(init, [f]);
      assert EventsOf([f]) == Events(f) by { assert [f][1..] == []; }
      CollectConcat(q, junk, EventsOf(init), Events(f));
      CollectFields(q, junk, init);
      CollectField(Collect(q, junk, EventsOf(init)), junk, f);
    }
  }

  lemma CollectApp(q: Query, junk: string, n: Node)
    requires AppElement(n) && q.start == 0
    ensures var r := Collect(q, junk, Events(n)); r.start == 0 && r.apps == [AppOf(n.kids, junk)] + q.apps
  {
    var q1 := AppsStep(q, junk, Start("App"));
    CollectConcat(q, junk, [Start("App")] + EventsOf(n.kids), [End("App")]);
    CollectConcat(q, junk, [Start("App")], EventsOf(n.kids));
    CollectOne(q, junk, Start("App"));
    CollectFields(q1, junk, n.kids);
    CollectOne(Collect(q1, junk, EventsOf(n.kids)), junk, End("App"));
  }

  lemma {:induction false} CollectApps(q: Query, junk: string, ns: seq<Node>)
    requires forall k :: 0 <= k < |ns| ==> AppElement(ns[k]) || Filler(ns[k])
    requires q.start == 0
    ensures var r := Collect(q, junk, EventsOf(ns)); r.start == 0 && r.apps == Reversed(AppsIn(ns, junk)) + q.apps
    decreases |ns|
  {
    if ns != [] {
      CollectConcat(q, junk, Events(ns[0]), EventsOf(ns[1..]));
      if AppElement(ns[0]) {
        CollectApp(q, junk, ns[0]);
        assert AppsIn(ns, junk)[1..] == AppsIn(ns[1..], junk);
      } else {
        CollectFiller(q, junk, ns[0]);
        assert AppsIn(ns, junk) == AppsIn(ns[1..], junk);
      }
      CollectApps(Collect(q, junk, Events(ns[0])), junk, ns[1..]);
    }
  }

  predicate AppListDocument(doc: Node) {
    doc.Element? && doc.name != "App" && !Watched(doc.name)
    && forall k :: 0 <= k < |doc.kids| ==> AppElement(doc.kids[k]) || Filler(doc.kids[k])
  }

  /** The list holds the apps of the document in reverse order; an empty ID or title reads as junk. */
  lemma ApplistOfDocument(doc: Node, junk: string)
    requires AppListDocument(doc)
    ensures Collect(Query(Some(""), 0, []), junk, Events(doc)).apps == Reversed(AppsIn(doc.kids, junk))
  {
    var q := Query(Some(""), 0, []);
    CollectConcat(q, junk, [Start(doc.name)] + EventsOf(doc.kids), [End(doc.name)]);
    CollectConcat(q, junk, [Start(doc.name)], EventsOf(doc.kids));
    CollectOne(q, junk, Start(doc.name));
    CollectApps(q, junk, doc.kids);
    CollectOne(Collect(q, junk, EventsOf(doc.kids)), junk, End(doc.name));
  }

  // ----- when uninitialised memory shows -----

  /** The ID and the title that count hold text. */
  predicate Settled(fields: seq<Node>)
    requires forall k :: 0 <= k < |fields| ==> Field(fields[k])
  {
    && (LastField(fields, "ID").Some? ==> HasText(LastField(fields, "ID").value))
    && (LastField(fields, "AppTitle").Some? ==> HasText(LastField(fields, "AppTitle").value))
  }

  predicate AllSettled(ns: seq<Node>) {
    forall k :: 0 <= k < |ns| && AppElement(ns[k]) ==> Settled(ns[k].kids)
  }

  ghost predicate JunkFree(doc: Node) {
    forall junk: string, junk': string ::
      Collect(Query(Some(""), 0, []), junk, Events(doc)).apps
      == Collect(Query(Some(""), 0, []), junk', Events(doc)).apps
  }

  lemma {:induction false} SettledApps(ns: seq<Node>, junk: string, junk': string)
    requires (forall k :: 0 <= k < |ns| ==> AppElement(ns[k]) || Filler(ns[k])) && AllSettled(ns)
    ensures AppsIn(ns, junk) == AppsIn(ns, junk')
  {
    if ns != [] {
      assert AppElement(ns[0]) ==> Settled(ns[0].kids);
      SettledApps(ns[1..], junk, junk');
    }
  }

  lemma OneAndTwo()
    ensures Atoi("1") == 1 && Atoi("2") == 2
  {
    ScanPrinted(1, "");
    ScanPrinted(2, "");
    assert Printed(1) + "" == "1" && Printed(2) + "" == "2";
  }

  lemma {:induction false} UnsettledApps(ns: seq<Node>)
    requires forall k :: 0 <= k < |ns| ==> AppElement(ns[k]) || Filler(ns[k])
    requires AppsIn(ns, "1") == AppsIn(ns, "2")
    ensures AllSettled(ns)
  {
    if ns != [] {
      OneAndTwo();
      if AppElement(ns[0]) {
        var a, b := AppOf(ns[0].kids, "1"), AppOf(ns[0].kids, "2");
        assert a == AppsIn(ns, "1")[0] && b == AppsIn(ns, "2")[0];
        assert AppsIn(ns, "1")[1..] == AppsIn(ns[1..], "1") && AppsIn(ns, "2")[1..] == AppsIn(ns[1..], "2");
        assert "1"[0] != "2"[0];
        assert Settled(ns[0].kids);
      } else {
        assert AppsIn(ns, "1") == AppsIn(ns[1..], "1") && AppsIn(ns, "2") == AppsIn(ns[1..], "2");
      }
      UnsettledApps(ns[1..]);
    }
  }

  /** The list is independent of uninitialised memory exactly when every ID and title that counts holds text. */
  lemma JunkFreeExactly(doc: Node)
    requires AppListDocument(doc)
    ensures JunkFree(doc) <==> AllSettled(doc.kids)
  {
    if AllSettled(doc.kids) {
      forall junk: string, junk': string
        ensures Collect(Query(Some(""), 0, []), junk, Events(doc)).apps
                == Collect(Query(Some(""), 0, []), junk', Events(doc)).apps
      {
        ApplistOfDocument(doc, junk);
        ApplistOfDocument(doc, junk');
        SettledApps(doc.kids, junk, junk');
      }
    }
    if JunkFree(doc) {
      ApplistOfDocument(doc, "1");
      ApplistOfDocument(doc, "2");
      ReversedTwice(AppsIn(doc.kids, "1"));
      ReversedTwice(AppsIn(doc.kids, "2"));
      UnsettledApps(doc.kids);
    }
  }

  /** An app with an empty ID element: its id is whatever malloc returned. */
  lemma EmptyIdShowsJunk()
    ensures var doc := Element("root", [Element("App", [Element("ID", [])])]);
            AppListDocument(doc) && !JunkFree(doc)
  {
    var fields := [Element("ID", [])];
    var doc := Element("root", [Element("App", fields)]);
    assert Field(fields[0]) && LastField(fields, "ID") == Some([]);
    assert !Settled(fields) && AppElement(doc.kids[0]);
    JunkFreeExactly(doc);
  }

  // ----- looking an app up by its title (client/moonlight-embedded-mod/src/main.c) -----

  /** get_app_id over the finished list; None stands for the crash of strcmp on a title that is not there. */
  method GetAppId(list: seq<App>, name: string) returns (id: Option<int>)
    ensures id == None <==> exists k :: 0 <= k < |list| && list[k].name == None
                                        && forall j :: 0 <= j < k ==> list[j].name != Some(name)
    ensures id == FirstId(list, name)
  {
    assert list[0..] == list;
    for i := 0 to |list|
      invariant FirstId(list, name) == FirstId(list[i..], name)
      invariant forall j :: 0 <= j < i ==> list[j].name != Some(name) && list[j].name != None
    {
      assert list[i..][1..] == list[i + 1..];
      if list[i].name == None {
        return None;
      }
      if list[i].name.value == name {
        return Some(list[i].id);
      }
    }
    return Some(-1);
  }

  function FirstId(list: seq<App>, name: string): Option<int> {
    if list == [] then Some(-1)
    else if list[0].name == None then None
    else if list[0].name == Some(name) then Some(list[0].id) else FirstId(list[1..], name)
  }

  predicate Decides(a: App, name: string) {
    a.name == None || a.name == Some(name)
  }

  /** The last app in document order that is untitled or bears the title, or -1. */
  function LastDeciding(apps: seq<App>, name: string): (k: int)
    ensures -1 <= k < |apps|
    ensures k >= 0 ==> Decides(apps[k], name)
    ensures forall j :: k < j < |apps| ==> !Decides(apps[j], name)
  {
    if apps == [] then -1
    else if Decides(apps[|apps| - 1], name) then |apps| - 1
    else LastDeciding(apps[..|apps| - 1], name)
  }

  /** What the lookup makes of that app. */
  function LookedUp(apps: seq<App>, name: string): Option<int> {
    var k := LastDeciding(apps, name);
    if k < 0 then Some(-1) else if apps[k].name == None then None else Some(apps[k].id)
  }

  lemma {:induction false} FirstOfReversed(apps: seq<App>, name: string)
    ensures FirstId(Reversed(apps), name) == LookedUp(apps, name)
    decreases |apps|
  {
    if apps != [] {
      var init := apps[..|apps| - 1];
      assert apps == init + [apps[|apps| - 1]];
      ReversedAppend(init, apps[|apps| - 1]);
      assert Reversed(apps)[1..] == Reversed(init);
      FirstOfReversed(init, name);
    }
  }

  function Lookup(doc: Node, junk: string, name: string): Option<int> {
    FirstId(Collect(Query(Some(""), 0, []), junk, Events(doc)).apps, name)
  }

  /**
   * Of the apps in the document that are untitled or bear the title, the last one
   * decides: the lookup crashes when it is untitled, and yields its id otherwise.
   */
  lemma LookupFindsLastApp(doc: Node, junk: string, name: string)
    requires AppListDocument(doc)
    ensures Lookup(doc, junk, name) == LookedUp(AppsIn(doc.kids, junk), name)
  {
    ApplistOfDocument(doc, junk);
    FirstOfReversed(AppsIn(doc.kids, junk), name);
  }

  // ----- when no lookup crashes -----

  predicate AllTitled(ns: seq<Node>) {
    forall k :: 0 <= k < |ns| && AppElement(ns[k]) ==> LastField(ns[k].kids, "AppTitle").Some?
  }

  ghost predicate NeverCrashes(doc: Node) {
    forall junk: string, name: string :: Lookup(doc, junk, name) != None
  }

  lemma {:induction false} TitledApps(ns: seq<Node>, junk: string)
    requires forall k :: 0 <= k < |ns| ==> AppElement(ns[k]) || Filler(ns[k])
    ensures AllTitled(ns) <==> forall a :: a in AppsIn(ns, junk) ==> a.name != None
  {
    if ns != [] {
      var rest := AppsIn(ns[1..], junk);
      TitledApps(ns[1..], junk);
      assert AllTitled(ns) <==>
             (AppElement(ns[0]) ==> LastField(ns[0].kids, "AppTitle").Some?) && AllTitled(ns[1..]);
      if AppElement(ns[0]) {
        assert AppsIn(ns, junk) == [AppOf(ns[0].kids, junk)] + rest;
      } else {
        assert AppsIn(ns, junk) == rest;
      }
    }
  }

  /** A title that no app bears. */
  function NewTitle(apps: seq<App>): string {
    if apps == [] then "x" else NewTitle(apps[1..]) + if apps[0].name.Some? then apps[0].name.value else ""
  }

  lemma {:induction false} NewTitleIsNew(apps: seq<App>)
    ensures forall a :: a in apps && a.name.Some? ==> |a.name.value| < |NewTitle(apps)|
    ensures |NewTitle(apps)| > 0
  {
    if apps != [] {
      NewTitleIsNew(apps[1..]);
    }
  }

  /** No lookup crashes exactly when every app has a title. */
  lemma LookupSafeExactly(doc: Node)
    requires AppListDocument(doc)
    ensures NeverCrashes(doc) <==> AllTitled(doc.kids)
  {
    if AllTitled(doc.kids) {
      forall junk: string, name: string
        ensures Lookup(doc, junk, name) != None
      {
        LookupFindsLastApp(doc, junk, name);
        TitledApps(doc.kids, junk);
      }
    } else {
      var apps := AppsIn(doc.kids, "");
      var name := NewTitle(apps);
      TitledApps(doc.kids, "");
      NewTitleIsNew(apps);
      LookupFindsLastApp(doc, "", name);
      assert LastDeciding(apps, name) >= 0;
      assert Lookup(doc, "", name) == None;
    }
  }

  /** An app without a title behind the one that is looked up. */
  lemma UntitledAppCrashes(junk: string)
    ensures var titled := Element("App", [Element("ID", [Chunks(["7"])]), Element("AppTitle", [Chunks(["x"])])]);
            var untitled := Element("App", [Element("ID", [Chunks(["8"])])]);
            var doc := Element("root", [titled, untitled]);
            AppListDocument(doc) && Lookup(doc, junk, "x") == None
  {
    var fields := [Element("ID", [Chunks(["8"])])];
    var titled := Element("App", [Element("ID", [Chunks(["7"])]), Element("AppTitle", [Chunks(["x"])])]);
    var untitled := Element("App", fields);
    var doc := Element("root", [titled, untitled]);
    assert AppElement(titled) && AppElement(untitled);
    LookupFindsLastApp(doc, junk, "x");
    assert LastField(fields, "AppTitle") == None by { assert fields[..0] == []; }
    LastAppCounts(titled, untitled, junk, "x");
  }

  lemma LastAppCounts(first: Node, last: Node, junk: string, name: string)
    requires AppElement(first) && AppElement(last) && LastField(last.kids, "AppTitle") == None
    ensures LookedUp(AppsIn([first, last], junk), name) == None
  {
    var apps := AppsIn([first, last], junk);
    assert [first, last][1..] == [last] && [last][1..] == [];
    assert AppsIn([last], junk) == [AppOf(last.kids, junk)];
    assert apps == [AppOf(first.kids, junk)] + AppsIn([last], junk);
    assert apps[1].name == None;
  }
}
