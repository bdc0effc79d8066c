/** The message-forums web service's `addMessage`: find (or, in a site
    without forums, create) a forum and a topic, then append a message that
    replies to the topic's latest message. The forum, area and message
    managers are modelled as an in-memory store; every lookup the Java code
    makes through them reads this store, and every save writes to it. */
module Forums {
  import opened Wrappers
  import opened Selection

  /** Entity ids are opaque. They are taken from the store's counter, and
      `ForumIds.IdsBelow` is the invariant that keeps them unused. */
  type Id = nat

  datatype Message = Message(
    id: Id,
    title: string,
    body: string,
    author: string,
    draft: bool,
    deleted: bool,
    approved: bool,
    topicId: Id,
    inReplyTo: Option<Id>)

  /** A topic; `draft` is None when its draft flag is null, and `messages`
      is None when the manager returns a null list. */
  datatype Topic = Topic(
    id: Id,
    title: string,
    createdBy: string,
    draft: Option<bool>,
    messages: Option<seq<Message>>)

  /** Areas are looked up by site context and discussion type id. */
  datatype AreaKey = AreaKey(context: string, typeId: string)

  datatype Area = Area(
    name: string,
    enabled: bool,
    hidden: bool,
    locked: bool,
    moderated: bool,
    postFirst: bool,
    autoMarkThreadsRead: bool,
    sendEmailOut: bool,
    availabilityRestricted: bool)

  /** A forum; `topics` is None when the forum's topic collection is null.
      The sequence order is the order in which the topics are iterated. */
  datatype Forum = Forum(
    id: Id,
    title: string,
    createdBy: string,
    area: AreaKey,
    draft: bool,
    moderated: bool,
    postFirst: bool,
    topics: Option<seq<Topic>>)

  /** What the site service and the forum manager know about one site:
      whether the forums tool is placed in it, and the forums listed for its
      main page (None when the manager returns null). */
  datatype SiteData = SiteData(hasForumsTool: bool, forums: Option<seq<Forum>>)

  /** All persistent state: sites by context id, areas, and the id counter. */
  datatype Store = Store(sites: map<string, SiteData>, areas: map<AreaKey, Area>, nextId: Id)

  /** The parameters of `addMessage` after the session has been established. */
  datatype Request = Request(
    context: string,
    forum: string,
    topic: string,
    user: string,
    title: string,
    body: string)

  const ToolPrefix := "Tool sakai.forums not found in site="
  const NoForumsPrefix := "No forums found in site="

  /** The outcomes of `addMessage`; `Text` is the string the service returns. */
  datatype Status = Success | Failure | NoTopic | ToolNotFound(context: string) | NoForumsFound(context: string)
  {
    function Text(): string {
      match this
      case Success => "Success"
      case Failure => "Failure"
      case NoTopic => "No topic"
      case ToolNotFound(c) => ToolPrefix + c
      case NoForumsFound(c) => NoForumsPrefix + c
    }
  }

  /** Reads a returned string back as an outcome; None for any other string. */
  function ParseStatus(s: string): (r: Option<Status>)
    ensures r.Some? ==> r.value.Text() == s
  {
    if s == "Success" then Some(Success)
    else if s == "Failure" then Some(Failure)
    else if s == "No topic" then Some(NoTopic)
    else if |ToolPrefix| <= |s| && s[..|ToolPrefix|] == ToolPrefix then
      assert s == ToolPrefix + s[|ToolPrefix|..];
      Some(ToolNotFound(s[|ToolPrefix|..]))
    else if |NoForumsPrefix| <= |s| && s[..|NoForumsPrefix|] == NoForumsPrefix then
      assert s == NoForumsPrefix + s[|NoForumsPrefix|..];
      Some(NoForumsFound(s[|NoForumsPrefix|..]))
    else None
  }

  /** Every outcome string is read back as the outcome that produced it, so
      the returned strings are pairwise distinct. */
  lemma StatusRoundTrip(x: Status)
    ensures ParseStatus(x.Text()) == Some(x)
  {
    match x
    case Success =>
    case Failure =>
    case NoTopic =>
    case ToolNotFound(c) =>
      var s := x.Text();
      assert s[..|ToolPrefix|] == ToolPrefix;
      assert s[|ToolPrefix|..] == c;
      assert s[0] == 'T';
    case NoForumsFound(c) =>
      var s := x.Text();
      assert s[0] == 'N' && s[1] == 'o' && s[3] == 'f';
      assert s[..|NoForumsPrefix|] == NoForumsPrefix;
      assert s[|NoForumsPrefix|..] == c;
  }

  datatype Posted = Posted(status: Status, store: Store)

  /** The titles of `xs`, in iteration order. */
  function Titles<T>(xs: seq<T>, title: T -> string): (r: seq<string>)
    ensures |r| == |xs|
    ensures forall i :: 0 <= i < |xs| ==> r[i] == title(xs[i])
  {
    seq(|xs|, i requires 0 <= i < |xs| => title(xs[i]))
  }

  function ForumTitles(fs: seq<Forum>): seq<string> {
    Titles(fs, (f: Forum) => f.title)
  }

  function TopicTitles(ts: seq<Topic>): seq<string> {
    Titles(ts, (t: Topic) => t.title)
  }

  /** Every topic has a non-null draft flag, so the topic loop's draft test
      cannot throw. */
  predicate DraftsSet(ts: seq<Topic>) {
    forall j :: 0 <= j < |ts| ==> ts[j].draft.Some?
  }

  /** The settings a newly created area is saved with. */
  function DefaultArea(): Area {
    Area(name := "AREA 51", enabled := true, hidden := true, locked := false,
         moderated := false, postFirst := false, autoMarkThreadsRead := false,
         sendEmailOut := true, availabilityRestricted := false)
  }

  /** Looks up the area for `key` and creates it with the default settings
      only when there is none. */
  function EnsureArea(areas: map<AreaKey, Area>, key: AreaKey): (r: map<AreaKey, Area>)
    ensures key in r
    ensures key in areas ==> r[key] == areas[key]
    ensures key !in areas ==> r[key] == DefaultArea()
    ensures forall k :: k != key ==> (k in r <==> k in areas)
    ensures forall k :: k != key && k in areas ==> r[k] == areas[k]
  {
    if key in areas then areas else areas[key := DefaultArea()]
  }

  /** The forum the create branch saves, holding the one topic it saves. */
  function CreatedForum(id: Id, req: Request, area: AreaKey): Forum {
    Forum(id := id, title := req.forum, createdBy := req.user, area := area,
          draft := false, moderated := false, postFirst := false,
          topics := Some([Topic(id := id + 1, title := req.topic, createdBy := req.user,
                                draft := Some(false), messages := Some([]))]))
  }

  /** The create branch: ensure the area, then save a forum and its topic
      into the site, whose forum list is empty when this runs. */
  function CreateDefaultForum(st: Store, discussionType: string, req: Request): (r: Store)
    requires req.context in st.sites && st.sites[req.context].forums == Some([])
    ensures req.context in r.sites
    ensures r.sites[req.context].hasForumsTool == st.sites[req.context].hasForumsTool
    ensures r.sites[req.context].forums ==
              Some([CreatedForum(st.nextId, req, AreaKey(req.context, discussionType))])
    ensures forall c :: c in st.sites && c != req.context ==> c in r.sites && r.sites[c] == st.sites[c]
    ensures r.sites.Keys == st.sites.Keys
    ensures r.areas == EnsureArea(st.areas, AreaKey(req.context, discussionType))
    ensures r.nextId > st.nextId + 1
  {
    var key := AreaKey(req.context, discussionType);
    var site := st.sites[req.context];
    Store(sites := st.sites[req.context := site.(forums := Some([CreatedForum(st.nextId, req, key)]))],
          areas := EnsureArea(st.areas, key),
          nextId := st.nextId + 2)
  }

  /** Topic `ti` of forum `fi` of site `ctx` exists. */
  predicate Located(st: Store, ctx: string, fi: nat, ti: nat) {
    && ctx in st.sites
    && st.sites[ctx].forums.Some?
    && fi < |st.sites[ctx].forums.value|
    && st.sites[ctx].forums.value[fi].topics.Some?
    && ti < |st.sites[ctx].forums.value[fi].topics.value|
  }

  function TopicAt(st: Store, ctx: string, fi: nat, ti: nat): Topic
    requires Located(st, ctx, fi, ti)
  {
    st.sites[ctx].forums.value[fi].topics.value[ti]
  }

  /** Replaces one topic; every other site, forum, topic and area stays. */
  function PutTopic(st: Store, ctx: string, fi: nat, ti: nat, t: Topic): (r: Store)
    requires Located(st, ctx, fi, ti)
    ensures Located(r, ctx, fi, ti) && TopicAt(r, ctx, fi, ti) == t
    ensures r.areas == st.areas && r.nextId == st.nextId
    ensures r.sites.Keys == st.sites.Keys
    ensures forall c :: c in st.sites && c != ctx ==> r.sites[c] == st.sites[c]
    ensures r.sites[ctx].hasForumsTool == st.sites[ctx].hasForumsTool
    ensures |r.sites[ctx].forums.value| == |st.sites[ctx].forums.value|
    ensures forall i :: 0 <= i < |st.sites[ctx].forums.value| && i != fi ==>
              r.sites[ctx].forums.value[i] == st.sites[ctx].forums.value[i]
    ensures r.sites[ctx].forums.value[fi] ==
              st.sites[ctx].forums.value[fi].(topics := r.sites[ctx].forums.value[fi].topics)
    ensures |r.sites[ctx].forums.value[fi].topics.value| == |st.sites[ctx].forums.value[fi].topics.value|
    ensures forall j :: 0 <= j < |st.sites[ctx].forums.value[fi].topics.value| && j != ti ==>
              r.sites[ctx].forums.value[fi].topics.value[j] == st.sites[ctx].forums.value[fi].topics.value[j]
  {
    var site := st.sites[ctx];
    var f := site.forums.value[fi];
    var f' := f.(topics := Some(f.topics.value[ti := t]));
    st.(sites := st.sites[ctx := site.(forums := Some(site.forums.value[fi := f']))])
  }

  /** The message `addMessage` saves into topic `t`: it replies to the last
      message of `t` when `t` has messages. */
  function NewMessage(id: Id, req: Request, t: Topic): (m: Message)
    ensures m.title == req.title && m.body == req.body && m.author == req.user
    ensures !m.draft && !m.deleted && m.approved
    ensures m.topicId == t.id
    ensures m.inReplyTo.Some? <==> |t.messages.GetOr([])| > 0
    ensures m.inReplyTo.Some? ==> m.inReplyTo.value == t.messages.GetOr([])[|t.messages.GetOr([])| - 1].id
  {
    var reply := if t.messages.Some? && |t.messages.value| > 0
                 then Some(t.messages.value[|t.messages.value| - 1].id)
                 else None;
    Message(id := id, title := req.title, body := req.body, author := req.user,
            draft := false, deleted := false, approved := true,
            topicId := t.id, inReplyTo := reply)
  }

  /** `addMessage`, with `discussionType` the id of the discussion forum
      type. A missing site makes the site lookup throw; iterating a null
      forum list or a null topic collection throws, and so does testing a
      null topic draft flag; the catch-all turns each into Failure. */
  function AddMessage(st: Store, discussionType: string, req: Request): (p: Posted)
    ensures req.context !in st.sites ==> p == Posted(Failure, st)
    ensures req.context in st.sites && !st.sites[req.context].hasForumsTool ==>
              p == Posted(ToolNotFound(req.context), st)
    ensures (req.context in st.sites && st.sites[req.context].hasForumsTool &&
             st.sites[req.context].forums.None?) ==> p == Posted(Failure, st)
    ensures !p.status.Success? ==> p.store == st
    ensures !p.status.NoForumsFound?
    ensures p.status.Success? ==> p.store.nextId > st.nextId
    ensures p.store.sites.Keys == st.sites.Keys
  {
    if req.context !in st.sites then Posted(Failure, st)
    else
      var site := st.sites[req.context];
      if !site.hasForumsTool then Posted(ToolNotFound(req.context), st)
      else if site.forums.None? then Posted(Failure, st)
      else
        var first := Select(ForumTitles(site.forums.value), req.forum);
        var st1 := if first.None? then CreateDefaultForum(st, discussionType, req) else st;
        var forums := st1.sites[req.context].forums.value;
        var chosen := if first.Some? then first else Select(ForumTitles(forums), req.forum);
        match chosen
        case None => Posted(NoForumsFound(req.context), st1)
        case Some(fi) =>
          var f := forums[fi];
          if f.topics.None? || !DraftsSet(f.topics.value) then Posted(Failure, st1)
          else
            match Select(TopicTitles(f.topics.value), req.topic)
            case None => Posted(NoTopic, st1)
            case Some(ti) =>
              var t := f.topics.value[ti];
              var m := NewMessage(st1.nextId, req, t);
              var st2 := PutTopic(st1, req.context, fi, ti, t.(messages := Some(t.messages.GetOr([]) + [m])));
              Posted(Success, st2.(nextId := st1.nextId + 1))
  }
}
