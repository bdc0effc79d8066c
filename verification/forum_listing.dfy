/** The message-forums web service's `getForumsInSite`: the forums of a site
    and their topics as a document tree with per-list totals, or a fixed
    error document when the site is missing or the caller may not update
    it. The tree stands for the XML document; its serialisation is not
    modelled. */
module ForumListing {
  import opened Wrappers
  import opened Forums

  /** `<topic id=..><title>..</title></topic>` */
  datatype TopicNode = TopicNode(id: Id, title: string)

  /** `<forum id=..><title>..</title><topiclist>topics</topiclist><topiclistTotal>..</topiclistTotal></forum>` */
  datatype ForumNode = ForumNode(id: Id, title: string, topics: seq<TopicNode>, topiclistTotal: int)

  /** `<forumlist>forums<forumlistTotal>..</forumlistTotal></forumlist>` */
  datatype ForumList = ForumList(forums: seq<ForumNode>, forumlistTotal: int)

  /** What `getForumsInSite` returns: the listing document, the plain
      tool-not-found string, or the fixed permission-failed document. */
  datatype ListReply = Listing(doc: ForumList) | ToolMissing(siteId: string) | PermissionFailed
  {
    /** The reply string, for the two replies that are literal text: the
        tool-not-found text and the fixed permission-failed document. */
    function Literal(): Option<string> {
      match this
      case Listing(_) => None
      case ToolMissing(id) => Some(ToolPrefix + id)
      case PermissionFailed => Some("<?xml version=\"1.0\" encoding=\"UTF-8\"?><errormsg>permission-failed canEditSite</errormsg>")
    }
  }

  /** The node for one forum. */
  function ForumNodeOf(f: Forum): ForumNode {
    var ts := f.topics.GetOr([]);
    ForumNode(f.id, f.title, seq(|ts|, j requires 0 <= j < |ts| => TopicNode(ts[j].id, ts[j].title)), |ts|)
  }

  /** Node `n` lists forum `f`: same id and title, one topic node per topic
      in iteration order, and a topic total equal to the number of topics
      (zero for a null collection). */
  predicate Lists(n: ForumNode, f: Forum) {
    var ts := f.topics.GetOr([]);
    && n.id == f.id && n.title == f.title
    && n.topiclistTotal == |ts| && |n.topics| == |ts|
    && forall j :: 0 <= j < |ts| ==> n.topics[j] == TopicNode(ts[j].id, ts[j].title)
  }

  /** The listing tree for the forums of a site. */
  function ForumTree(forums: Option<seq<Forum>>): (r: ForumList)
    ensures r.forumlistTotal == |forums.GetOr([])| && |r.forums| == |forums.GetOr([])|
    ensures forall i :: 0 <= i < |r.forums| ==> Lists(r.forums[i], forums.GetOr([])[i])
  {
    var fs := forums.GetOr([]);
    ForumList(seq(|fs|, i requires 0 <= i < |fs| => ForumNodeOf(fs[i])), |fs|)
  }

  /** `getForumsInSite` for the site `siteId` of the store; a site the
      store does not hold is a site the site service cannot find. The caller
      passes when it is a super user or holds the site-update permission.
      A missing site and a refused caller are both raised as exceptions and
      end in the fixed error document. */
  function GetForumsInSite(st: Store, siteId: string, isSuperUser: bool, canUpdateSite: bool): (r: ListReply)
    ensures r.PermissionFailed? <==> siteId !in st.sites || (!isSuperUser && !canUpdateSite)
    ensures r.ToolMissing? <==>
              siteId in st.sites && (isSuperUser || canUpdateSite) && !st.sites[siteId].hasForumsTool
    ensures r.ToolMissing? ==> r.siteId == siteId
    ensures r.Listing? ==>
              var fs := st.sites[siteId].forums.GetOr([]);
              && r.doc.forumlistTotal == |fs| && |r.doc.forums| == |fs|
              && forall i :: 0 <= i < |fs| ==> Lists(r.doc.forums[i], fs[i])
  {
    if siteId !in st.sites then PermissionFailed
    else if !isSuperUser && !canUpdateSite then PermissionFailed
    else if !st.sites[siteId].hasForumsTool then ToolMissing(siteId)
    else Listing(ForumTree(st.sites[siteId].forums))
  }

  /** The listing built the way the Java code builds it: one pass over the
      forums appending a node each, an inner pass per forum counting its
      topics as they are appended, and the totals appended last. */
  method BuildForumList(forums: Option<seq<Forum>>) returns (r: ForumList)
    ensures r == ForumTree(forums)
  {
    var nodes: seq<ForumNode> := [];
    var forumCnt := 0;
    if forums.Some? {
      var fs := forums.value;
      forumCnt := |fs|;
      var i := 0;
      while i < |fs|
        invariant 0 <= i <= |fs|
        invariant |nodes| == i
        invariant forall k :: 0 <= k < i ==> nodes[k] == ForumNodeOf(fs[k])
      {
        var f := fs[i];
        var topicNodes: seq<TopicNode> := [];
        var topicCnt := 0;
        if f.topics.Some? {
          var ts := f.topics.value;
          while topicCnt < |ts|
            invariant 0 <= topicCnt <= |ts|
            invariant |topicNodes| == topicCnt
            invariant forall j :: 0 <= j < topicCnt ==> topicNodes[j] == TopicNode(ts[j].id, ts[j].title)
          {
            topicNodes := topicNodes + [TopicNode(ts[topicCnt].id, ts[topicCnt].title)];
            topicCnt := topicCnt + 1;
          }
        }
        nodes := nodes + [ForumNode(f.id, f.title, topicNodes, topicCnt)];
        i := i + 1;
      }
    }
    r := ForumList(nodes, forumCnt);
  }
}
