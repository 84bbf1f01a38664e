/**
 `EmailManager`: the facade an application talks to. Each reading and organising operation is
 forwarded to the manager's one `EmailReader` with its arguments unchanged, so each method
 promises what the reader's method promises. The batch size of a bulk deletion is never
 forwarded, so the reader's default of 50 always applies.
 */
module Manager {
  import opened Wrappers
  import opened Text
  import opened Values
  import opened Imap
  import opened Catalog
  import opened Batching
  import opened Reader

  class EmailManager {
    const reader: EmailReader

    /** The manager's invariant is its reader's: a connection it holds carries an open session. */
    ghost predicate Valid()
      reads this, reader, reader.conn
    {
      reader.Valid()
    }

    /** Builds the reader from the settings map; the reader holds no connection yet. */
    constructor (config: map<string, Value>)
      requires "email" in config && "password" in config && "imap_host" in config && "imap_port" in config
      ensures fresh(reader)
      ensures reader.email == config["email"] && reader.password == config["password"]
      ensures reader.imapHost == config["imap_host"] && reader.imapPort == config["imap_port"]
      ensures reader.conn == null
      ensures Valid()
    {
      reader := new EmailReader(config);
    }

    /** `list_folders`: the reader's folder names, unchanged; empty when LIST does not succeed. */
    method ListFolders(reply: ListReply) returns (names: seq<string>)
      requires Valid()
      modifies reader, reader.conn
      ensures Valid() && reader.conn != null
      ensures old(reader.conn) == null ==>
        fresh(reader.conn) && reader.conn.trace == [Login(reader.email, reader.password), List]
      ensures old(reader.conn) != null ==>
        reader.conn == old(reader.conn) && reader.conn.trace == old(reader.conn.trace) + [List]
      ensures reply.status != OK ==> names == []
      ensures reply.status == OK ==> |names| == |reply.lines|
      ensures reply.status == OK ==> forall k :: 0 <= k < |names| ==> names[k] == FolderName(reply.lines[k])
    {
      names := reader.ListFolders(reply);
    }

    /** `get_recent_emails`: exactly the reader's `fetch_emails` on the same folder and limit. */
    method GetRecentEmails(search: SearchReply, fetch: string -> FetchReply, folder: string := "INBOX", limit: int := 10)
      returns (emails: seq<Summary>)
      requires Valid()
      modifies reader, reader.conn
      ensures Valid() && reader.conn != null
      ensures old(reader.conn) == null ==> fresh(reader.conn)
      ensures old(reader.conn) != null ==> reader.conn == old(reader.conn)
      ensures var visited := if search.status == OK then FetchCommands(Walk(Words(search.line), limit)) else [];
        reader.conn.trace == (if old(reader.conn) == null then [Login(reader.email, reader.password)]
                              else old(reader.conn.trace))
                             + [Select(folder), UidSearch("ALL")] + visited
      ensures search.status != OK ==> emails == []
      ensures search.status == OK ==> emails == Collect(Walk(Words(search.line), limit), fetch)
    {
      emails := reader.FetchEmails(search, fetch, folder, limit);
    }

    /** `delete_email`: the reader's deletion of one message, by sequence number, on a fresh connection. */
    method DeleteEmail(uid: string, folder: string := "INBOX") returns (report: string)
      modifies reader
      ensures Valid() && fresh(reader.conn)
      ensures reader.conn.trace ==
        [Login(reader.email, reader.password), Select(folder), Store(uid, AddFlags, DeletedFlag), Expunge]
      ensures report == "Email " + uid + " deleted \U{2705}"
    {
      report := reader.DeleteEmail(uid, folder);
    }

    /** `bulk_delete`: the reader's bulk deletion with the same criteria and folder, in batches of 50. */
    method BulkDelete(dateBefore: int -> string, reply: SearchReply, daysOld: Option<int> := None,
                      fromSender: Option<string> := None, folder: string := "INBOX")
      returns (report: string)
      modifies reader
      ensures Valid() && fresh(reader.conn)
      ensures reader.conn.trace == [Login(reader.email, reader.password), Select(QuotedMailbox(folder))]
                                   + BulkCommands(SearchKeys(daysOld, fromSender, dateBefore), reply, DefaultBatchSize)
      ensures report == BulkOutcomeOf(SearchKeys(daysOld, fromSender, dateBefore), reply).Report()
    {
      report := reader.BulkDelete(dateBefore, reply, daysOld, fromSender, folder);
    }

    /** `move_email`: the reader's copy-then-delete move, by sequence number, on a fresh connection. */
    method MoveEmail(uid: string, targetFolder: string, copyStatus: Status, sourceFolder: string := "INBOX")
      returns (report: string)
      modifies reader
      ensures Valid() && fresh(reader.conn)
      ensures copyStatus != OK ==>
        && reader.conn.trace == [Login(reader.email, reader.password), Select(sourceFolder), Copy(uid, targetFolder)]
        && report == "\U{274C} Failed to move " + uid + " to " + targetFolder
      ensures copyStatus == OK ==>
        && reader.conn.trace == [Login(reader.email, reader.password), Select(sourceFolder), Copy(uid, targetFolder),
                                 Store(uid, AddFlags, DeletedFlag), Expunge]
        && report == "Email " + uid + " moved to " + targetFolder + " \U{2705}"
    {
      report := reader.MoveEmail(uid, targetFolder, copyStatus, sourceFolder);
    }

    /**
     `close`: logs the reader out. Afterwards the reader holds no connection; when it held none
     to begin with, no connection is sent anything, so a second `close` is harmless.
     */
    method Close()
      requires Valid()
      modifies reader, reader.conn
      ensures Valid() && reader.conn == null
      ensures old(reader.conn) != null ==> old(reader.conn).trace == old(reader.conn.trace) + [Imap.Logout]
    {
      reader.Logout();
    }
  }
}
