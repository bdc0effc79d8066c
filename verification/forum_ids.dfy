/** The id counter of the forum store. `addMessage` takes the counter's
    next values as the ids of what it saves. These ids are unused as long as
    every id already in the store lies below the counter. This module states
    that invariant, shows that `addMessage` keeps it, and shows what it
    gives: a posted message never shares its id with an earlier message of
    its topic, so it never replies to itself. */
module ForumIds {
  import opened Wrappers
  import opened Selection
  import opened Forums

  predicate TopicIdsBelow(t: Topic, n: Id) {
    && t.id < n
    && forall k :: 0 <= k < |t.messages.GetOr([])| ==> t.messages.GetOr([])[k].id < n
  }

  predicate ForumIdsBelow(f: Forum, n: Id) {
    && f.id < n
    && forall j :: 0 <= j < |f.topics.GetOr([])| ==> TopicIdsBelow(f.topics.GetOr([])[j], n)
  }

  predicate SiteIdsBelow(s: SiteData, n: Id) {
    forall i :: 0 <= i < |s.forums.GetOr([])| ==> ForumIdsBelow(s.forums.GetOr([])[i], n)
  }

  /** Every forum, topic and message id in the store is below the counter. */
  predicate IdsBelow(st: Store) {
    forall c :: c in st.sites ==> SiteIdsBelow(st.sites[c], st.nextId)
  }

  /** A bound on a site's ids still holds for any larger bound. */
  lemma SiteIdsBelowGrows(s: SiteData, n: Id, n': Id)
    requires SiteIdsBelow(s, n) && n <= n'
    ensures SiteIdsBelow(s, n')
  {
  }

  /** The create branch takes the counter's next two values for the forum
      and its topic and moves the counter past both. */
  lemma CreateKeepsIdsBelow(st: Store, dt: string, req: Request)
    requires IdsBelow(st)
    requires req.context in st.sites && st.sites[req.context].forums == Some([])
    ensures IdsBelow(CreateDefaultForum(st, dt, req))
  {
  }

  /** Posting a message with the counter's value as its id into a located
      topic, and then moving the counter on, keeps every id below it. */
  lemma PostKeepsIdsBelow(st: Store, ctx: string, fi: nat, ti: nat, req: Request)
    requires IdsBelow(st) && Located(st, ctx, fi, ti)
    ensures var t := TopicAt(st, ctx, fi, ti);
            var m := NewMessage(st.nextId, req, t);
            var st2 := PutTopic(st, ctx, fi, ti, t.(messages := Some(t.messages.GetOr([]) + [m])));
            IdsBelow(st2.(nextId := st.nextId + 1))
  {
    var t := TopicAt(st, ctx, fi, ti);
    var m := NewMessage(st.nextId, req, t);
    var t' := t.(messages := Some(t.messages.GetOr([]) + [m]));
    var st2 := PutTopic(st, ctx, fi, ti, t');
    var r := st2.(nextId := st.nextId + 1);
    forall c | c in r.sites
      ensures SiteIdsBelow(r.sites[c], r.nextId)
    {
      if c == ctx {
        var fs := st.sites[ctx].forums.value;
        var fs' := r.sites[ctx].forums.value;
        assert SiteIdsBelow(st.sites[ctx], st.nextId) && st.sites[ctx].forums.GetOr([]) == fs;
        forall i | 0 <= i < |fs'|
          ensures ForumIdsBelow(fs'[i], r.nextId)
        {
          assert ForumIdsBelow(fs[i], st.nextId);
          if i == fi {
            var ts := fs[fi].topics.value;
            var ts' := fs'[fi].topics.value;
            assert fs[fi].topics.GetOr([]) == ts;
            forall j | 0 <= j < |ts'|
              ensures TopicIdsBelow(ts'[j], r.nextId)
            {
              assert TopicIdsBelow(ts[j], st.nextId);
              if j == ti {
                var ms' := t'.messages.GetOr([]);
                forall k | 0 <= k < |ms'|
                  ensures ms'[k].id < r.nextId
                {
                  if k < |t.messages.GetOr([])| {
                    assert ms'[k] == t.messages.GetOr([])[k];
                  }
                }
              }
            }
          } else {
            SiteIdsBelowGrows(st.sites[ctx], st.nextId, r.nextId);
          }
        }
      } else {
        SiteIdsBelowGrows(st.sites[c], st.nextId, r.nextId);
      }
    }
  }

  /** `addMessage` keeps every id of the store below the counter, whichever
      outcome it has. */
  lemma AddMessageKeepsIdsBelow(st: Store, dt: string, req: Request)
    requires IdsBelow(st)
    ensures IdsBelow(AddMessage(st, dt, req).store)
  {
    var p := AddMessage(st, dt, req);
    if p.status.Success? {
      var site := st.sites[req.context];
      var first := Select(ForumTitles(site.forums.value), req.forum);
      var st1 := if first.None? then CreateDefaultForum(st, dt, req) else st;
      if first.None? {
        CreateKeepsIdsBelow(st, dt, req);
      }
      var forums := st1.sites[req.context].forums.value;
      var fi := (if first.Some? then first else Select(ForumTitles(forums), req.forum)).value;
      var ti := Select(TopicTitles(forums[fi].topics.value), req.topic).value;
      PostKeepsIdsBelow(st1, req.context, fi, ti, req);
    }
  }

  /** With every id below the counter, the message `addMessage` posts into
      an existing forum has an id no earlier message of its topic has, so
      its reply link never points at itself. */
  lemma PostedMessageIdIsFresh(st: Store, dt: string, req: Request, fi: nat, ti: nat)
    requires IdsBelow(st) && Located(st, req.context, fi, ti)
    requires st.sites[req.context].hasForumsTool
    requires Select(ForumTitles(st.sites[req.context].forums.value), req.forum) == Some(fi)
    requires var ts := st.sites[req.context].forums.value[fi].topics.value;
             DraftsSet(ts) && Select(TopicTitles(ts), req.topic) == Some(ti)
    ensures var p := AddMessage(st, dt, req);
            && p.status == Success
            && Located(p.store, req.context, fi, ti)
            && var ms := TopicAt(p.store, req.context, fi, ti).messages.GetOr([]);
               && |ms| > 0
               && (forall k :: 0 <= k < |ms| - 1 ==> ms[k].id != ms[|ms| - 1].id)
               && ms[|ms| - 1].inReplyTo != Some(ms[|ms| - 1].id)
  {
    var t := TopicAt(st, req.context, fi, ti);
    var m := NewMessage(st.nextId, req, t);
    var before := t.messages.GetOr([]);
    var ms := before + [m];
    var f := st.sites[req.context].forums.value[fi];
    assert SiteIdsBelow(st.sites[req.context], st.nextId);
    assert st.sites[req.context].forums.GetOr([])[fi] == f;
    assert f.topics.GetOr([])[ti] == t;
    assert TopicIdsBelow(t, st.nextId);
    assert forall k :: 0 <= k < |ms| - 1 ==> ms[k] == before[k];
  }
}
