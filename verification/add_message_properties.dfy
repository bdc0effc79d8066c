/** Properties of `addMessage` that relate its outcome to the store it ran
    against: when the create branch runs, which forum and topic receive the
    message, what the message links to, and what a second post does. */
module AddMessageProperties {
  import opened Wrappers
  import opened Selection
  import opened Forums

  /** The site is there, has the forums tool, and lists forums `fs`. */
  predicate Listed(st: Store, ctx: string, fs: seq<Forum>) {
    ctx in st.sites && st.sites[ctx].hasForumsTool && st.sites[ctx].forums == Some(fs)
  }

  /** With at least one forum listed the create branch does not run: no
      area is created and the site keeps exactly the forums it had, in the
      same order and with the same titles. */
  lemma ExistingForumsAreReused(st: Store, dt: string, req: Request, fs: seq<Forum>)
    requires Listed(st, req.context, fs) && |fs| > 0
    ensures var p := AddMessage(st, dt, req);
            && p.store.areas == st.areas
            && req.context in p.store.sites
            && p.store.sites[req.context].forums.Some?
            && ForumTitles(p.store.sites[req.context].forums.value) == ForumTitles(fs)
  {
    var p := AddMessage(st, dt, req);
    if p.status.Success? {
      var fi := Select(ForumTitles(fs), req.forum).value;
      var ts := fs[fi].topics.value;
      var ti := Select(TopicTitles(ts), req.topic).value;
      var t := ts[ti];
      var m := NewMessage(st.nextId, req, t);
      var st2 := PutTopic(st, req.context, fi, ti, t.(messages := Some(t.messages.GetOr([]) + [m])));
      assert p.store == st2.(nextId := st.nextId + 1);
      var fs2 := st2.sites[req.context].forums.value;
      assert forall i :: 0 <= i < |fs| ==> fs2[i].title == fs[i].title;
    }
  }

  /** With an empty forum list the create branch runs: the area for the
      site and the discussion type is reused when it exists and created
      with the default settings otherwise; one forum and one topic are
      created with the requested titles, and the message is posted into
      that topic without a reply link. */
  lemma EmptySiteCreatesForumAndTopic(st: Store, dt: string, req: Request)
    requires Listed(st, req.context, [])
    ensures var p := AddMessage(st, dt, req);
            var key := AreaKey(req.context, dt);
            && p.status == Success
            && (forall c :: c in st.sites && c != req.context ==> p.store.sites[c] == st.sites[c])
            && p.store.sites[req.context].hasForumsTool
            && (key in st.areas ==> p.store.areas == st.areas)
            && (key !in st.areas ==> p.store.areas == st.areas[key := DefaultArea()])
            && Located(p.store, req.context, 0, 0)
            && |p.store.sites[req.context].forums.value| == 1
            && var f := p.store.sites[req.context].forums.value[0];
               && f.title == req.forum && f.createdBy == req.user && f.area == key
               && !f.draft && !f.moderated && !f.postFirst
               && |f.topics.value| == 1
               && var t := f.topics.value[0];
                  && t.title == req.topic && t.createdBy == req.user
                  && t.messages.Some? && |t.messages.value| == 1
                  && var m := t.messages.value[0];
                     && m.title == req.title && m.body == req.body && m.author == req.user
                     && m.approved && !m.deleted && !m.draft
                     && m.topicId == t.id && m.inReplyTo == None
  {
    var key := AreaKey(req.context, dt);
    var st1 := CreateDefaultForum(st, dt, req);
    var f := CreatedForum(st.nextId, req, key);
    assert st1.sites[req.context].forums.value == [f];
    assert Select(ForumTitles([f]), req.forum) == Some(0);
    assert Select(TopicTitles(f.topics.value), req.topic) == Some(0);
    if key !in st.areas {
      assert st1.areas == st.areas[key := DefaultArea()];
    }
  }

  /** The outcome is "No topic" exactly when the selected forum has an
      empty topic collection. */
  lemma NoTopicIffSelectedForumIsEmpty(st: Store, dt: string, req: Request, fs: seq<Forum>)
    requires Listed(st, req.context, fs) && |fs| > 0
    ensures var fi := Select(ForumTitles(fs), req.forum).value;
            AddMessage(st, dt, req).status == NoTopic <==> fs[fi].topics == Some([])
  {
  }

  /** The message is appended to the selected topic of the selected forum
      when that forum has topics and none of them has a null draft flag;
      it carries the request's title, body and author, is approved, neither
      deleted nor draft, and replies to the topic's last message when there
      is one. Every other site, forum, topic and area is unchanged, the site
      keeps its forums tool, and the counter moves on by one. */
  lemma MessageIsAppendedToSelectedTopic(st: Store, dt: string, req: Request, fs: seq<Forum>)
    requires Listed(st, req.context, fs) && |fs| > 0
    requires var fi := Select(ForumTitles(fs), req.forum).value;
             fs[fi].topics.Some? && |fs[fi].topics.value| > 0 && DraftsSet(fs[fi].topics.value)
    ensures var p := AddMessage(st, dt, req);
            var fi := Select(ForumTitles(fs), req.forum).value;
            var ts := fs[fi].topics.value;
            var ti := Select(TopicTitles(ts), req.topic).value;
            var before := ts[ti].messages.GetOr([]);
            && p.status == Success
            && Located(p.store, req.context, fi, ti)
            && var t' := TopicAt(p.store, req.context, fi, ti);
               && t'.(messages := ts[ti].messages) == ts[ti]
               && t'.messages.Some? && |t'.messages.value| == |before| + 1
               && t'.messages.value[..|before|] == before
               && var m := t'.messages.value[|before|];
                  && m.id == st.nextId
                  && m.title == req.title && m.body == req.body && m.author == req.user
                  && m.approved && !m.deleted && !m.draft && m.topicId == ts[ti].id
                  && m.inReplyTo == (if |before| > 0 then Some(before[|before| - 1].id) else None)
    ensures var p := AddMessage(st, dt, req);
            var fi := Select(ForumTitles(fs), req.forum).value;
            var ts := fs[fi].topics.value;
            var ti := Select(TopicTitles(ts), req.topic).value;
            var fs' := p.store.sites[req.context].forums.value;
            && p.store.areas == st.areas
            && p.store.nextId == st.nextId + 1
            && (forall c :: c in st.sites && c != req.context ==> p.store.sites[c] == st.sites[c])
            && p.store.sites[req.context].hasForumsTool == st.sites[req.context].hasForumsTool
            && |fs'| == |fs|
            && (forall i :: 0 <= i < |fs| && i != fi ==> fs'[i] == fs[i])
            && fs'[fi].(topics := fs[fi].topics) == fs[fi]
            && (forall j :: 0 <= j < |ts| && j != ti ==> fs'[fi].topics.value[j] == ts[j])
  {
    var fi := Select(ForumTitles(fs), req.forum).value;
    var ts := fs[fi].topics.value;
    var ti := Select(TopicTitles(ts), req.topic).value;
    var t := ts[ti];
    var m := NewMessage(st.nextId, req, t);
    var st2 := PutTopic(st, req.context, fi, ti, t.(messages := Some(t.messages.GetOr([]) + [m])));
    assert AddMessage(st, dt, req) == Posted(Success, st2.(nextId := st.nextId + 1));
    assert (t.messages.GetOr([]) + [m])[..|t.messages.GetOr([])|] == t.messages.GetOr([]);
  }

  /** Iterating a null topic collection of the selected forum throws, so
      `addMessage` fails and nothing is saved. */
  lemma NullTopicsGiveFailure(st: Store, dt: string, req: Request, fs: seq<Forum>)
    requires Listed(st, req.context, fs) && |fs| > 0
    requires fs[Select(ForumTitles(fs), req.forum).value].topics.None?
    ensures AddMessage(st, dt, req) == Posted(Failure, st)
  {
  }

  /** The topic loop tests every topic's draft flag, so one null flag in the
      selected forum makes `addMessage` fail, whichever topic it is on, and
      nothing is saved. */
  lemma NullTopicDraftGivesFailure(st: Store, dt: string, req: Request, fs: seq<Forum>, j: nat)
    requires Listed(st, req.context, fs) && |fs| > 0
    requires var fi := Select(ForumTitles(fs), req.forum).value;
             fs[fi].topics.Some? && j < |fs[fi].topics.value| && fs[fi].topics.value[j].draft.None?
    ensures AddMessage(st, dt, req) == Posted(Failure, st)
  {
  }

  /** Replaces the draft flags of the topics `ts`, one flag per topic. */
  function Redraft(ts: seq<Topic>, flags: seq<Option<bool>>): (r: seq<Topic>)
    requires |flags| == |ts|
    ensures |r| == |ts|
    ensures forall i :: 0 <= i < |ts| ==> r[i] == ts[i].(draft := flags[i])
  {
    seq(|ts|, i requires 0 <= i < |ts| => ts[i].(draft := flags[i]))
  }

  /** A topic's draft value plays no part in topic selection: changing the
      draft flags of the topics of one forum, while keeping null flags null
      and non-null flags non-null, changes neither the outcome of
      `addMessage` nor the topic index the message is posted under. */
  lemma TopicDraftFlagsDoNotSteerPosting(st: Store, dt: string, req: Request, fs: seq<Forum>, fi: nat,
                                         flags: seq<Option<bool>>)
    requires Listed(st, req.context, fs) && fi < |fs| && fs[fi].topics.Some?
    requires |flags| == |fs[fi].topics.value|
    requires forall i :: 0 <= i < |flags| ==> (flags[i].Some? <==> fs[fi].topics.value[i].draft.Some?)
    ensures var ts := fs[fi].topics.value;
            var fs' := fs[fi := fs[fi].(topics := Some(Redraft(ts, flags)))];
            var st' := st.(sites := st.sites[req.context := st.sites[req.context].(forums := Some(fs'))]);
            && AddMessage(st', dt, req).status == AddMessage(st, dt, req).status
            && Select(TopicTitles(Redraft(ts, flags)), req.topic) == Select(TopicTitles(ts), req.topic)
  {
    var ts := fs[fi].topics.value;
    var fs' := fs[fi := fs[fi].(topics := Some(Redraft(ts, flags)))];
    assert TopicTitles(Redraft(ts, flags)) == TopicTitles(ts);
    assert ForumTitles(fs') == ForumTitles(fs);
    assert DraftsSet(Redraft(ts, flags)) == DraftsSet(ts);
  }

  /** Posting the same request twice into a site without forums: the first
      post creates the forum and topic, the second reuses them and replies to
      the first message. */
  lemma SecondPostRepliesToFirst(st: Store, dt: string, req: Request)
    requires Listed(st, req.context, [])
    ensures var p1 := AddMessage(st, dt, req);
            var p2 := AddMessage(p1.store, dt, req);
            && p1.status == Success && p2.status == Success
            && Located(p2.store, req.context, 0, 0)
            && |p2.store.sites[req.context].forums.value| == 1
            && |p2.store.sites[req.context].forums.value[0].topics.value| == 1
            && var ms := TopicAt(p2.store, req.context, 0, 0).messages;
               && ms.Some? && |ms.value| == 2
               && ms.value[0] == TopicAt(p1.store, req.context, 0, 0).messages.value[0]
               && ms.value[1].inReplyTo == Some(ms.value[0].id)
               && ms.value[0].id != ms.value[1].id
  {
    EmptySiteCreatesForumAndTopic(st, dt, req);
    var p1 := AddMessage(st, dt, req);
    var fs1 := p1.store.sites[req.context].forums.value;
    assert Listed(p1.store, req.context, fs1);
    assert Select(ForumTitles(fs1), req.forum) == Some(0);
    assert Select(TopicTitles(fs1[0].topics.value), req.topic) == Some(0);
    MessageIsAppendedToSelectedTopic(p1.store, dt, req, fs1);
  }
}
