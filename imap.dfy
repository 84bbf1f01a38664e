/**
 The IMAP4rev1 (RFC 3501) connection as the mail reader sees it: the commands it issues, the
 replies it reads, and a connection object that records every command it is sent, in order.
 Server replies are not computed here; callers hand them in.
 */
module Imap {
  import opened Wrappers
  import opened Values

  /**
   The completion status of a command that returns (section 7.1 of RFC 3501). A BAD completion
   never reaches the reader: the client library raises on it instead of returning.
   */
  datatype Status = OK | NO

  /**
   A command sent over the connection. `Store` and `Copy` address messages by sequence
   number; `UidFetch`, `UidStore` and `UidSearch` are their `UID` forms (section 6.4.8 of
   RFC 3501), which address messages by unique identifier.
   */
  datatype Command =
    | Login(user: Value, password: Value)
    | List
    | Select(mailbox: string)
    | UidSearch(criteria: string)
    | UidFetch(uid: string, items: string)
    | Store(messages: string, item: string, flags: string)
    | UidStore(uids: string, item: string, flags: string)
    | Copy(messages: string, mailbox: string)
    | Expunge
    | Logout

  /** The data item and flag list of every deletion: `+FLAGS (\Deleted)`. */
  const AddFlags: string := "+FLAGS"
  const DeletedFlag: string := "(\\Deleted)"

  /** The fetch item that asks for the whole message. */
  const WholeMessage: string := "(RFC822)"

  /** Reply to LIST: its status and one line per mailbox (section 7.2.2 of RFC 3501). */
  datatype ListReply = ListReply(status: Status, lines: seq<string>)

  /** Reply to UID SEARCH: its status and the line of space-separated identifiers. */
  datatype SearchReply = SearchReply(status: Status, line: string)

  /** One part of a message in the order `Message.walk` visits it, with its lowercase content type. */
  datatype Part = Part(contentType: string, payload: string)

  /** A message body: a single payload, or the parts of a multipart message. */
  datatype Body = Single(payload: string) | Multipart(parts: seq<Part>)

  /**
   A parsed message: the first decoded chunk of its Subject header, its From and Date headers
   when present, and its body with payloads already decoded to text.
   */
  datatype Message = Message(subject: string, from: Option<string>, date: Option<string>, body: Body)

  /** Reply to UID FETCH: its status and the message it carries. */
  datatype FetchReply = FetchReply(status: Status, message: Message)

  /** The mailbox argument of SELECT in a bulk deletion: `INBOX` bare, any other name in double quotes. */
  function QuotedMailbox(folder: string): (arg: string)
    ensures folder == "INBOX" ==> arg == "INBOX"
    ensures folder != "INBOX" ==>
      (|arg| == |folder| + 2 && arg[0] == '"' && arg[|arg| - 1] == '"' && arg[1..|arg| - 1] == folder)
  {
    if folder == "INBOX" then "INBOX" else "\"" + folder + "\""
  }

  /**
   What a connection's trace looks like while the session it carries is open: it began with
   LOGIN under the given credentials (section 6.2.3 of RFC 3501) and has not been sent LOGOUT.
   */
  ghost predicate Session(trace: seq<Command>, user: Value, password: Value) {
    |trace| >= 1 && trace[0] == Login(user, password) && Logout !in trace
  }

  /** Sending commands other than LOGOUT keeps a session open. */
  lemma SessionExtend(trace: seq<Command>, more: seq<Command>, user: Value, password: Value)
    requires Session(trace, user, password) && Logout !in more
    ensures Session(trace + more, user, password)
  {
    assert (trace + more)[0] == trace[0];
  }

  /** An open connection to the server, with the commands sent over it so far. */
  class Connection {
    const host: Value
    const port: Value
    var trace: seq<Command>

    constructor (host: Value, port: Value)
      ensures this.host == host && this.port == port
      ensures trace == []
    {
      this.host := host;
      this.port := port;
      trace := [];
    }

    /** Sends one command; the reply, if the caller needs it, is handed to the caller separately. */
    method Send(c: Command)
      modifies this
      ensures trace == old(trace) + [c]
    {
      trace := trace + [c];
    }
  }
}
