/**
 `EmailReader`: a mail reader holding at most one IMAP connection. `ListFolders` and
 `FetchEmails` connect only when there is no connection; `DeleteEmail`, `BulkDelete` and
 `MoveEmail` open a fresh connection every time, leaving any earlier one as it was;
 `Logout` closes the connection if there is one.

 Each method states the commands it leaves on the connection's trace and what it returns,
 the latter in terms of the functions of `Catalog` and `Batching`.
 */
module Reader {
  import opened Wrappers
  import opened Text
  import opened Values
  import opened Imap
  import opened Catalog
  import opened Batching

  class EmailReader {
    const email: Value
    const password: Value
    const imapHost: Value
    const imapPort: Value
    var conn: Connection?

    /**
     The reader's invariant: a connection it holds carries an open session, logged in with the
     reader's own credentials and not yet logged out, so no command is ever sent after LOGOUT.
     */
    ghost predicate Valid()
      reads this, conn
    {
      conn != null ==> Session(conn.trace, email, password)
    }

    /** Takes the four settings the reader needs from a settings map; no connection yet. */
    constructor (config: map<string, Value>)
      requires "email" in config && "password" in config && "imap_host" in config && "imap_port" in config
      ensures email == config["email"] && password == config["password"]
      ensures imapHost == config["imap_host"] && imapPort == config["imap_port"]
      ensures conn == null
      ensures Valid()
    {
      email := config["email"];
      password := config["password"];
      imapHost := config["imap_host"];
      imapPort := config["imap_port"];
      conn := null;
    }

    /** Opens a new connection to the configured server and logs in; it replaces any earlier one. */
    method Connect()
      modifies this
      ensures fresh(conn)
      ensures conn.host == imapHost && conn.port == imapPort
      ensures conn.trace == [Login(email, password)]
      ensures Valid()
    {
      conn := new Connection(imapHost, imapPort);
      conn.Send(Login(email, password));
    }

    /**
     `list_folders`: connects if needed, issues LIST, and returns one folder name per reply
     line, in order, or nothing when the status is not OK.
     */
    method ListFolders(reply: ListReply) returns (names: seq<string>)
      requires Valid()
      modifies this, conn
      ensures Valid() && conn != null
      ensures old(conn) == null ==> fresh(conn) && conn.trace == [Login(email, password), List]
      ensures old(conn) != null ==> conn == old(conn) && conn.trace == old(conn.trace) + [List]
      ensures reply.status != OK ==> names == []
      ensures reply.status == OK ==> |names| == |reply.lines|
      ensures reply.status == OK ==> forall k :: 0 <= k < |names| ==> names[k] == FolderName(reply.lines[k])
    {
      if conn == null {
        Connect();
      }
      SessionExtend(conn.trace, [List], email, password);
      conn.Send(List);
      if reply.status != OK {
        return [];
      }
      names := seq(|reply.lines|, k requires 0 <= k < |reply.lines| => FolderName(reply.lines[k]));
    }

    /**
     `fetch_emails`: connects if needed, selects the folder, searches all identifiers, then
     fetches the latest `limit` of them newest first, keeping a summary of each fetch that
     succeeds. A failed search gives nothing and fetches nothing.
     */
    method FetchEmails(search: SearchReply, fetch: string -> FetchReply, folder: string := "INBOX", limit: int := 10)
      returns (emails: seq<Summary>)
      requires Valid()
      modifies this, conn
      ensures Valid() && conn != null
      ensures old(conn) == null ==> fresh(conn)
      ensures old(conn) != null ==> conn == old(conn)
      ensures var visited := if search.status == OK then FetchCommands(Walk(Words(search.line), limit)) else [];
        conn.trace == (if old(conn) == null then [Login(email, password)] else old(conn.trace))
                      + [Select(folder), UidSearch("ALL")] + visited
      ensures search.status != OK ==> emails == []
      ensures search.status == OK ==> emails == Collect(Walk(Words(search.line), limit), fetch)
    {
      ghost var prior := if conn == null then [Login(email, password)] else conn.trace;
      if conn == null {
        Connect();
      }
      var c := conn;
      SessionExtend(c.trace, [Select(folder), UidSearch("ALL")], email, password);
      c.Send(Select(folder));
      c.Send(UidSearch("ALL"));
      ghost var opening := c.trace;
      assert opening == prior + [Select(folder), UidSearch("ALL")];
      if search.status != OK {
        return [];
      }
      var walk := Walk(Words(search.line), limit);
      SessionExtend(opening, FetchCommands(walk), email, password);
      emails := FetchEach(c, walk, fetch);
      assert c.trace == opening + FetchCommands(walk);
    }

    /**
     `delete_email`: on a fresh connection, selects the folder, flags the message as deleted
     and expunges. The message is addressed by sequence number, not by identifier.
     */
    method DeleteEmail(uid: string, folder: string := "INBOX") returns (report: string)
      modifies this
      ensures Valid() && fresh(conn)
      ensures conn.trace == [Login(email, password), Select(folder), Store(uid, AddFlags, DeletedFlag), Expunge]
      ensures report == "Email " + uid + " deleted \U{2705}"
    {
      Connect();
      conn.Send(Select(folder));
      conn.Send(Store(uid, AddFlags, DeletedFlag));
      conn.Send(Expunge);
      report := "Email " + uid + " deleted \U{2705}";
    }

    /**
     `bulk_delete`: on a fresh connection, selects the folder (quoted unless `INBOX`), builds
     the search keys, and gives up without searching when there are none. Otherwise it
     searches, and for each batch of the matched identifiers flags them deleted and expunges.
     */
    method BulkDelete(dateBefore: int -> string, reply: SearchReply, daysOld: Option<int> := None,
                      fromSender: Option<string> := None, folder: string := "INBOX",
                      batchSize: nat := DefaultBatchSize)
      returns (report: string)
      requires batchSize >= 1
      modifies this
      ensures Valid() && fresh(conn)
      ensures conn.trace == [Login(email, password), Select(QuotedMailbox(folder))]
                            + BulkCommands(SearchKeys(daysOld, fromSender, dateBefore), reply, batchSize)
      ensures report == BulkOutcomeOf(SearchKeys(daysOld, fromSender, dateBefore), reply).Report()
    {
      Connect();
      var c := conn;
      c.Send(Select(QuotedMailbox(folder)));
      assert c.trace == [Login(email, password), Select(QuotedMailbox(folder))];

      var criteria: seq<string> := [];
      if daysOld.Some? {
        criteria := criteria + ["BEFORE " + dateBefore(daysOld.value)];
      }
      if fromSender.Some? && fromSender.value != "" {
        criteria := criteria + ["FROM \"" + fromSender.value + "\""];
      }
      assert criteria == SearchKeys(daysOld, fromSender, dateBefore);
      BulkCommandsStayLoggedIn(criteria, reply, batchSize);
      SessionExtend(c.trace, BulkCommands(criteria, reply, batchSize), email, password);
      if criteria == [] {
        return NoCriteria.Report();
      }

      report := SearchAndDelete(c, criteria, reply, batchSize);
    }

    /**
     `move_email`: on a fresh connection, selects the source folder and copies the message to
     the target. Only when COPY succeeds is the original flagged deleted and expunged; a
     failed COPY leaves the source untouched. The message is addressed by sequence number.
     */
    method MoveEmail(uid: string, targetFolder: string, copyStatus: Status, sourceFolder: string := "INBOX")
      returns (report: string)
      modifies this
      ensures Valid() && fresh(conn)
      ensures copyStatus != OK ==>
        && conn.trace == [Login(email, password), Select(sourceFolder), Copy(uid, targetFolder)]
        && report == "\U{274C} Failed to move " + uid + " to " + targetFolder
      ensures copyStatus == OK ==>
        && conn.trace == [Login(email, password), Select(sourceFolder), Copy(uid, targetFolder),
                          Store(uid, AddFlags, DeletedFlag), Expunge]
        && report == "Email " + uid + " moved to " + targetFolder + " \U{2705}"
    {
      Connect();
      conn.Send(Select(sourceFolder));
      conn.Send(Copy(uid, targetFolder));
      if copyStatus != OK {
        return "\U{274C} Failed to move " + uid + " to " + targetFolder;
      }
      conn.Send(Store(uid, AddFlags, DeletedFlag));
      conn.Send(Expunge);
      report := "Email " + uid + " moved to " + targetFolder + " \U{2705}";
    }

    /**
     `logout`: sends LOGOUT on the connection, if any, and drops it; without one it does nothing.
     The session it ends was open until then.
     */
    method Logout()
      requires Valid()
      modifies this, conn
      ensures Valid() && conn == null
      ensures old(conn) != null ==> Session(old(conn.trace), email, password)
      ensures old(conn) != null ==> old(conn).trace == old(conn.trace) + [Imap.Logout]
    {
      if conn != null {
        conn.Send(Imap.Logout);
        conn := null;
      }
    }
  }

  /**
   The fetch loop of `fetch_emails`: one UID FETCH per visited identifier, in order, keeping
   a summary of each fetch that succeeds.
   */
  method FetchEach(c: Connection, walk: seq<string>, fetch: string -> FetchReply) returns (emails: seq<Summary>)
    modifies c
    ensures c.trace == old(c.trace) + FetchCommands(walk)
    ensures emails == Collect(walk, fetch)
  {
    emails := [];
    var k := 0;
    while k < |walk|
      invariant 0 <= k <= |walk|
      invariant emails == Collect(walk[..k], fetch)
      invariant c.trace == old(c.trace) + FetchCommands(walk[..k])
    {
      ghost var before := c.trace;
      var kept := FetchOne(c, walk[k], fetch, emails);
      FetchDone(walk, k, fetch, old(c.trace), before, c.trace, emails, kept);
      emails := kept;
      k := k + 1;
    }
    assert walk[..k] == walk;
  }

  /** One turn of the fetch loop: UID FETCH of one identifier, keeping its summary on success. */
  method FetchOne(c: Connection, uid: string, fetch: string -> FetchReply, emails: seq<Summary>)
    returns (kept: seq<Summary>)
    modifies c
    ensures c.trace == old(c.trace) + [UidFetch(uid, WholeMessage)]
    ensures kept == if fetch(uid).status == OK then emails + [Summarize(uid, fetch(uid).message)] else emails
  {
    c.Send(UidFetch(uid, WholeMessage));
    var reply := fetch(uid);
    kept := emails;
    if reply.status == OK {
      kept := emails + [Summarize(uid, reply.message)];
    }
  }

  /**
   The part of `bulk_delete` after the keys are known: UID SEARCH with the keys joined by a
   space, then, when the search succeeded with a non-empty reply, the batched deletion of the
   matched identifiers.
   */
  method SearchAndDelete(c: Connection, criteria: seq<string>, reply: SearchReply, size: nat)
    returns (report: string)
    requires criteria != [] && size >= 1
    modifies c
    ensures c.trace == old(c.trace) + BulkCommands(criteria, reply, size)
    ensures report == BulkOutcomeOf(criteria, reply).Report()
  {
    var search := UidSearch(Join(" ", criteria));
    c.Send(search);
    if reply.status != OK || reply.line == [] {
      return NoMatches.Report();
    }
    var uids := Words(reply.line);
    var total := |uids|;
    DeleteBatches(c, uids, size);
    assert c.trace == old(c.trace) + ([search] + BatchCommands(Batches(uids, size)));
    return Deleted(total).Report();
  }

  /**
   The deletion loop of `bulk_delete`: for each slice `uids[i:i+size]`, one
   `UID STORE +FLAGS (\Deleted)` on its UID set followed by EXPUNGE.
   */
  method DeleteBatches(c: Connection, uids: seq<string>, size: nat)
    requires size >= 1
    modifies c
    ensures c.trace == old(c.trace) + BatchCommands(Batches(uids, size))
  {
    ghost var all := old(c.trace) + BatchCommands(Batches(uids, size));
    var total := |uids|;
    var i := 0;
    while i < total
      invariant c.trace + BatchCommands(BatchesFrom(uids, size, i)) == all
      decreases total - i
    {
      ghost var before := c.trace;
      SendBatch(c, uids[i..Min(i + size, total)]);
      BatchDone(uids, size, i, before, c.trace, all);
      i := i + size;
    }
  }

  /** One turn of the deletion loop: flag the batch as deleted, then expunge. */
  method SendBatch(c: Connection, batch: seq<string>)
    modifies c
    ensures c.trace == old(c.trace) + [UidStore(UidSet(batch), AddFlags, DeletedFlag), Expunge]
  {
    c.Send(UidStore(UidSet(batch), AddFlags, DeletedFlag));
    c.Send(Expunge);
  }
}
