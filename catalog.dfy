/**
 The read side of the mail reader as values: the mailbox name of a LIST line, which
 identifiers `fetch_emails` visits and in what order, the snippet it keeps of a body, and the
 summaries it returns. The reader's methods are proved against these functions.
 */
module Catalog {
  import opened Wrappers
  import opened Text
  import opened Imap

  // ---------------------------------------------------------------- list_folders

  /** What a LIST line holds between the hierarchy delimiter and the mailbox name. */
  const Delimiter: string := " \"/\" "

  /**
   The folder name of one LIST line: the last piece of `line.split(' "/" ')`. It is a suffix
   of the line free of the delimiter; it is the whole line when the delimiter does not occur,
   and otherwise the delimiter stands right before it. It starts where the scan from the left,
   jumping past each leftmost delimiter in turn, ends.
   */
  function FolderName(line: string): (name: string)
    ensures Find(name, Delimiter).None?
    ensures |name| <= |line| && line[|line| - |name|..] == name
    ensures Find(line, Delimiter).None? ==> name == line
    ensures Find(line, Delimiter).Some? ==>
      |Delimiter| + |name| <= |line| && line[|line| - |name| - |Delimiter|..|line| - |name|] == Delimiter
    ensures name == line[LastCutEnd(line, Delimiter)..]
  {
    var parts := Split(line, Delimiter);
    SplitPartsFree(line, Delimiter);
    SplitLast(line, Delimiter);
    if Find(line, Delimiter).Some? then
      LastCutEndPositive(line, Delimiter);
      LastCutEndSep(line, Delimiter);
      parts[|parts| - 1]
    else
      assert LastCutEnd(line, Delimiter) == 0;
      parts[|parts| - 1]
  }

  /** The folder name is what the text after the leftmost delimiter names. */
  lemma FolderNameAfterFirst(line: string)
    requires Find(line, Delimiter).Some?
    ensures FolderName(line) == FolderName(line[Find(line, Delimiter).value + |Delimiter|..])
  {
    var i := Find(line, Delimiter).value;
    FindOccurs(line, Delimiter, i);
    var tail := line[i + |Delimiter|..];
    assert line[LastCutEnd(line, Delimiter)..] == tail[LastCutEnd(tail, Delimiter)..];
  }

  /**
   When delimiters overlap, the cut is at the leftmost one: the line ` "/" "/" ` names the
   folder `"/" `, not the empty text after the last delimiter.
   */
  lemma FolderNameOverlap()
    ensures FolderName(" \"/\" \"/\" ") == "\"/\" "
  {
    var line := " \"/\" \"/\" ";
    assert OccursAt(line, Delimiter, 0);
    assert Find(line, Delimiter) == Some(0);
    var rest := line[5..];
    assert rest == "\"/\" ";
    assert Find(rest, Delimiter).None? by {
      assert FindFrom(rest, Delimiter, 0).None?;
    }
    assert LastCutEnd(line, Delimiter) == 5;
  }

  // ---------------------------------------------------------------- fetch_emails: which identifiers

  /**
   `uids[-limit:]`. A positive limit keeps the last `limit` identifiers (all of them when there
   are fewer); a zero limit keeps all of them; a negative limit drops the first `-limit`.
   */
  function Latest(uids: seq<string>, limit: int): (r: seq<string>)
    ensures limit >= 1 ==> |r| == Min(limit, |uids|) && r == uids[|uids| - |r|..]
    ensures limit == 0 ==> r == uids
    ensures limit < 0 ==> r == uids[Min(-limit, |uids|)..]
  {
    SliceFrom(uids, -limit)
  }

  /**
   The identifiers `fetch_emails` visits, in visiting order, given the identifiers of the
   UID SEARCH ALL reply: the latest ones, newest first. The `k`-th visited is the `k`-th from
   the end of the reply.
   */
  function Walk(uids: seq<string>, limit: int): (walk: seq<string>)
    ensures |walk| <= |uids|
    ensures limit >= 1 ==> |walk| == Min(limit, |uids|)
    ensures limit == 0 ==> |walk| == |uids|
    ensures forall k :: 0 <= k < |walk| ==> walk[k] == uids[|uids| - 1 - k]
  {
    var latest := Latest(uids, limit);
    assert latest == uids[|uids| - |latest|..];
    Reversed(latest)
  }

  /** The commands that fetch each visited identifier, in order. */
  function FetchCommands(walk: seq<string>): (cmds: seq<Command>)
    ensures |cmds| == |walk|
    ensures forall k :: 0 <= k < |walk| ==> cmds[k] == UidFetch(walk[k], WholeMessage)
  {
    if walk == [] then []
    else FetchCommands(walk[..|walk| - 1]) + [UidFetch(walk[|walk| - 1], WholeMessage)]
  }

  // ---------------------------------------------------------------- fetch_emails: what is kept

  /** The snippet length limit. */
  const SnippetLength: nat := 200

  predicate IsPlain(p: Part) {
    p.contentType == "text/plain"
  }

  /** Part `i` is the first `text/plain` part in walk order. */
  predicate FirstPlain(parts: seq<Part>, i: int) {
    0 <= i < |parts| && IsPlain(parts[i]) && forall j :: 0 <= j < i ==> !IsPlain(parts[j])
  }

  /** The index of the first `text/plain` part, in walk order, if any. */
  function FirstPlainPart(parts: seq<Part>): (r: Option<nat>)
    ensures r.Some? ==> r.value < |parts| && parts[r.value].contentType == "text/plain"
    ensures forall k :: 0 <= k < |parts| && (r.None? || k < r.value) ==> parts[k].contentType != "text/plain"
  {
    if parts == [] then None
    else if parts[0].contentType == "text/plain" then Some(0)
    else match FirstPlainPart(parts[1..])
      case None => None
      case Some(i) => Some(i + 1)
  }

  /** The text a snippet is cut from: the first `text/plain` part of a multipart body (none: empty), or the single payload. */
  function BodyText(body: Body): (text: string)
    ensures body.Single? ==> text == body.payload
    ensures body.Multipart? && (forall k :: 0 <= k < |body.parts| ==> !IsPlain(body.parts[k])) ==> text == ""
    ensures body.Multipart? ==> forall i :: FirstPlain(body.parts, i) ==> text == body.parts[i].payload
  {
    match body
    case Single(payload) => payload
    case Multipart(parts) =>
      match FirstPlainPart(parts)
      case None => ""
      case Some(i) => parts[i].payload
  }

  /**
   The snippet of a body: its text cut to 200 characters, then stripped. It is at most 200
   characters long and neither starts nor ends with whitespace.
   */
  function Snippet(body: Body): (snippet: string)
    ensures |snippet| <= SnippetLength
    ensures snippet == [] || (!IsSpace(snippet[0]) && !IsSpace(snippet[|snippet| - 1]))
  {
    Strip(Take(BodyText(body), SnippetLength))
  }

  /**
   A snippet is a slice of the first 200 characters of the body text, and only whitespace
   around it is cut off.
   */
  lemma SnippetCut(body: Body)
    ensures var text := BodyText(body);
      var head := Take(text, SnippetLength);
      var i := LeadingSpaces(head);
      var snippet := Snippet(body);
      && i + |snippet| <= |head| <= SnippetLength
      && snippet == text[i..i + |snippet|]
      && AllSpace(head[..i]) && AllSpace(head[i + |snippet|..])
  {
    var text := BodyText(body);
    var head := Take(text, SnippetLength);
    assert Snippet(body) == Strip(head);
    StripOfPrefix(text, head);
  }

  /** One entry of the list `fetch_emails` returns. */
  datatype Summary = Summary(uid: string, subject: string, from: Option<string>, date: Option<string>, snippet: string)

  /** The entry for one fetched message: its identifier, its three headers, and the snippet of its body. */
  function Summarize(uid: string, m: Message): (s: Summary)
    ensures s.uid == uid && s.subject == m.subject && s.from == m.from && s.date == m.date
    ensures |s.snippet| <= SnippetLength && s.snippet == Strip(Take(BodyText(m.body), SnippetLength))
  {
    Summary(uid, m.subject, m.from, m.date, Snippet(m.body))
  }

  /** What `fetch_emails` has gathered after visiting `walk`: a summary for each successful fetch. */
  function Collect(walk: seq<string>, fetch: string -> FetchReply): (summaries: seq<Summary>)
    ensures |summaries| <= |walk|
    ensures walk != [] && fetch(walk[|walk| - 1]).status == OK ==>
      |summaries| >= 1 && summaries[|summaries| - 1].uid == walk[|walk| - 1]
  {
    if walk == [] then []
    else
      var before := Collect(walk[..|walk| - 1], fetch);
      var uid := walk[|walk| - 1];
      if fetch(uid).status == OK then before + [Summarize(uid, fetch(uid).message)] else before
  }

  /** Visiting one more identifier adds its fetch command, and its summary when the fetch succeeds. */
  lemma CollectStep(walk: seq<string>, k: nat, fetch: string -> FetchReply)
    requires k < |walk|
    ensures FetchCommands(walk[..k + 1]) == FetchCommands(walk[..k]) + [UidFetch(walk[k], WholeMessage)]
    ensures Collect(walk[..k + 1], fetch) ==
      if fetch(walk[k]).status == OK then Collect(walk[..k], fetch) + [Summarize(walk[k], fetch(walk[k]).message)]
      else Collect(walk[..k], fetch)
  {
    assert walk[..k + 1][..k] == walk[..k];
  }

  /** One turn of the fetch loop: its FETCH and, on success, its summary extend the prefix done so far. */
  lemma FetchDone(walk: seq<string>, k: nat, fetch: string -> FetchReply, start: seq<Command>,
                  before: seq<Command>, after: seq<Command>, emails: seq<Summary>, kept: seq<Summary>)
    requires k < |walk|
    requires before == start + FetchCommands(walk[..k]) && after == before + [UidFetch(walk[k], WholeMessage)]
    requires emails == Collect(walk[..k], fetch)
    requires kept == if fetch(walk[k]).status == OK then emails + [Summarize(walk[k], fetch(walk[k]).message)] else emails
    ensures after == start + FetchCommands(walk[..k + 1]) && kept == Collect(walk[..k + 1], fetch)
  {
    CollectStep(walk, k, fetch);
  }

  function UidsOf(summaries: seq<Summary>): (uids: seq<string>)
    ensures |uids| == |summaries|
    ensures forall k :: 0 <= k < |summaries| ==> uids[k] == summaries[k].uid
  {
    if summaries == [] then []
    else UidsOf(summaries[..|summaries| - 1]) + [summaries[|summaries| - 1].uid]
  }

  /** `xs` is `ys` with some elements left out, the rest in the same order. */
  predicate IsSubsequence<T(==)>(xs: seq<T>, ys: seq<T>) {
    if xs == [] then true
    else if ys == [] then false
    else
      || (xs[|xs| - 1] == ys[|ys| - 1] && IsSubsequence(xs[..|xs| - 1], ys[..|ys| - 1]))
      || IsSubsequence(xs, ys[..|ys| - 1])
  }

  lemma {:induction false} SubsequenceLength<T>(xs: seq<T>, ys: seq<T>)
    requires IsSubsequence(xs, ys)
    ensures |xs| <= |ys|
    decreases |ys|
  {
    if xs != [] {
      if xs[|xs| - 1] == ys[|ys| - 1] && IsSubsequence(xs[..|xs| - 1], ys[..|ys| - 1]) {
        SubsequenceLength(xs[..|xs| - 1], ys[..|ys| - 1]);
      } else {
        SubsequenceLength(xs, ys[..|ys| - 1]);
      }
    }
  }

  /** Each summary comes from a successful fetch of its identifier and is made from the fetched message. */
  predicate FromFetches(summaries: seq<Summary>, fetch: string -> FetchReply) {
    forall k :: 0 <= k < |summaries| ==>
      fetch(summaries[k].uid).status == OK
      && summaries[k] == Summarize(summaries[k].uid, fetch(summaries[k].uid).message)
  }

  /** Every summary gathered over `walk` comes from a successful fetch of its identifier. */
  lemma {:induction false} CollectSummaries(walk: seq<string>, fetch: string -> FetchReply)
    ensures FromFetches(Collect(walk, fetch), fetch)
  {
    if walk != [] {
      var rest := walk[..|walk| - 1];
      var uid := walk[|walk| - 1];
      CollectSummaries(rest, fetch);
      var before := Collect(rest, fetch);
      var summaries := Collect(walk, fetch);
      if fetch(uid).status == OK {
        var last := Summarize(uid, fetch(uid).message);
        assert summaries == before + [last];
        forall k | 0 <= k < |summaries|
          ensures fetch(summaries[k].uid).status == OK
          ensures summaries[k] == Summarize(summaries[k].uid, fetch(summaries[k].uid).message)
        {
          if k < |before| {
            assert summaries[k] == before[k];
          }
        }
      } else {
        assert summaries == before;
      }
    }
  }

  /**
   The identifiers of the summaries gathered over `walk` form a subsequence of `walk` that
   leaves out no identifier whose fetch succeeded.
   */
  lemma {:induction false} CollectUids(walk: seq<string>, fetch: string -> FetchReply)
    ensures IsSubsequence(UidsOf(Collect(walk, fetch)), walk)
    ensures forall u :: u in walk && fetch(u).status == OK ==> u in UidsOf(Collect(walk, fetch))
  {
    if walk != [] {
      var rest := walk[..|walk| - 1];
      var uid := walk[|walk| - 1];
      CollectUids(rest, fetch);
      var before := UidsOf(Collect(rest, fetch));
      var uids := UidsOf(Collect(walk, fetch));
      if fetch(uid).status == OK {
        assert uids == before + [uid];
        assert uids[..|uids| - 1] == before;
      } else {
        assert uids == before;
      }
      assert forall u :: u in walk ==> u in rest || u == uid;
    }
  }

  /**
   The summaries gathered over `walk` are, in order, those of the identifiers whose fetch
   succeeded: their identifiers form a subsequence of `walk`, each one was fetched with an OK
   status and is summarised from the fetched message, and no successful fetch is left out.
   */
  lemma CollectSpec(walk: seq<string>, fetch: string -> FetchReply)
    ensures IsSubsequence(UidsOf(Collect(walk, fetch)), walk)
    ensures |Collect(walk, fetch)| <= |walk|
    ensures FromFetches(Collect(walk, fetch), fetch)
    ensures forall u :: u in walk && fetch(u).status == OK ==> u in UidsOf(Collect(walk, fetch))
  {
    CollectSummaries(walk, fetch);
    CollectUids(walk, fetch);
    SubsequenceLength(UidsOf(Collect(walk, fetch)), walk);
  }

  lemma {:induction false} SubsequenceMembers<T>(xs: seq<T>, ys: seq<T>)
    requires IsSubsequence(xs, ys)
    ensures forall x :: x in xs ==> x in ys
    decreases |ys|
  {
    if xs != [] {
      if xs[|xs| - 1] == ys[|ys| - 1] && IsSubsequence(xs[..|xs| - 1], ys[..|ys| - 1]) {
        SubsequenceMembers(xs[..|xs| - 1], ys[..|ys| - 1]);
        assert forall x :: x in xs ==> x in xs[..|xs| - 1] || x == xs[|xs| - 1];
      } else {
        SubsequenceMembers(xs, ys[..|ys| - 1]);
      }
    }
  }

  /** A sequence that lists the last `m` elements of `uids` backwards holds exactly those elements. */
  lemma BackwardsMembers<T>(walk: seq<T>, uids: seq<T>, m: nat)
    requires |walk| == m <= |uids|
    requires forall k :: 0 <= k < m ==> walk[k] == uids[|uids| - 1 - k]
    ensures forall u :: u in walk <==> u in uids[|uids| - m..]
  {
    var latest := uids[|uids| - m..];
    forall u | u in walk
      ensures u in latest
    {
      var k :| 0 <= k < m && walk[k] == u;
      assert latest[m - 1 - k] == u;
    }
    forall u | u in latest
      ensures u in walk
    {
      var j :| 0 <= j < m && latest[j] == u;
      assert walk[m - 1 - j] == u;
    }
  }

  /** The summaries gathered over a walk that visits exactly the members of `pool`. */
  lemma CollectFrom(walk: seq<string>, fetch: string -> FetchReply, pool: seq<string>)
    requires forall u :: u in walk <==> u in pool
    ensures |Collect(walk, fetch)| <= |walk|
    ensures forall e :: e in Collect(walk, fetch) ==> e.uid in pool && fetch(e.uid).status == OK
    ensures forall u :: u in pool && fetch(u).status == OK ==> u in UidsOf(Collect(walk, fetch))
  {
    var emails := Collect(walk, fetch);
    CollectSpec(walk, fetch);
    SubsequenceMembers(UidsOf(emails), walk);
    forall e | e in emails
      ensures e.uid in UidsOf(emails) && fetch(e.uid).status == OK
    {
      var k :| 0 <= k < |emails| && emails[k] == e;
      assert UidsOf(emails)[k] == e.uid;
    }
  }

  /**
   What `fetch_emails` returns for a positive limit, given the `n` identifiers of the search
   reply: at most `limit` summaries, each for one of the latest `min(limit, n)` identifiers
   (`uids[-limit:]`), and one for every such identifier whose fetch succeeded.
   */
  lemma RecentEmails(uids: seq<string>, limit: int, fetch: string -> FetchReply)
    requires limit >= 1
    ensures |Collect(Walk(uids, limit), fetch)| <= Min(limit, |uids|)
    ensures forall e :: e in Collect(Walk(uids, limit), fetch) ==>
      e.uid in Latest(uids, limit) && fetch(e.uid).status == OK
    ensures forall u :: u in Latest(uids, limit) && fetch(u).status == OK ==>
      u in UidsOf(Collect(Walk(uids, limit), fetch))
  {
    var m := Min(limit, |uids|);
    var walk := Walk(uids, limit);
    BackwardsMembers(walk, uids, m);
    CollectFrom(walk, fetch, Latest(uids, limit));
  }
}
