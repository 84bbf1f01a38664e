/**
 The deletion side of the mail reader as values: the SEARCH keys built from the criteria
 (section 6.4.4 of RFC 3501), the cutting of the matched identifiers into batches, the
 `UID STORE +FLAGS (\Deleted)` and EXPUNGE issued per batch (sections 6.4.8, 6.4.6 and 6.4.3),
 and the outcome `bulk_delete` reports.
 */
module Batching {
  import opened Wrappers
  import opened Text
  import opened Imap

  /** The batch size `bulk_delete` uses unless told otherwise. */
  const DefaultBatchSize: nat := 50

  // ---------------------------------------------------------------- search keys

  /** A sender counts as a criterion only when it is truthy: `None` and `""` do not. */
  predicate SenderGiven(sender: Option<string>) {
    sender.Some? && sender.value != ""
  }

  /**
   The SEARCH keys of a bulk deletion, in order: `BEFORE <date>` when an age is given (zero
   and negative ages included), then `FROM "<sender>"` when a sender is given. The sender is
   put between quotes as it is, without escaping. There are none exactly when neither
   criterion is given.
   */
  function SearchKeys(daysOld: Option<int>, sender: Option<string>, dateBefore: int -> string): (keys: seq<string>)
    ensures keys == [] <==> daysOld.None? && !SenderGiven(sender)
    ensures |keys| == (if daysOld.Some? then 1 else 0) + (if SenderGiven(sender) then 1 else 0)
    ensures daysOld.Some? ==> keys[0] == "BEFORE " + dateBefore(daysOld.value)
    ensures SenderGiven(sender) ==> keys[|keys| - 1] == "FROM \"" + sender.value + "\""
  {
    (if daysOld.Some? then ["BEFORE " + dateBefore(daysOld.value)] else [])
    + (if SenderGiven(sender) then ["FROM \"" + sender.value + "\""] else [])
  }

  // ---------------------------------------------------------------- batches

  /** The slices `uids[i:i+size]` for `i` in `range(start, len(uids), size)`. */
  function BatchesFrom(uids: seq<string>, size: nat, start: nat): seq<seq<string>>
    requires size >= 1
    decreases |uids| - start
  {
    if start >= |uids| then []
    else [uids[start..Min(start + size, |uids|)]] + BatchesFrom(uids, size, start + size)
  }

  /**
   The batches of `bulk_delete`: the slices `uids[i:i+size]` for `i` in `range(0, len(uids), size)`.
   They cover the matched identifiers exactly once, in order, in `ceil(n / size)` slices.
   */
  function Batches(uids: seq<string>, size: nat): (batches: seq<seq<string>>)
    requires size >= 1
    ensures Flatten(batches) == uids
    ensures |batches| == CeilDiv(|uids|, size)
    ensures EvenlyCut(batches, size)
  {
    BatchesFromSpec(uids, size, 0);
    BatchesFrom(uids, size, 0)
  }

  function Flatten(batches: seq<seq<string>>): seq<string> {
    if batches == [] then [] else batches[0] + Flatten(batches[1..])
  }

  /** `ceil(n / d)`. */
  function CeilDiv(n: nat, d: nat): nat
    requires d >= 1
  {
    (n + d - 1) / d
  }

  lemma {:induction false} MulMonotonic(x: nat, y: nat, d: nat)
    requires x <= y
    ensures x * d <= y * d
    decreases y - x
  {
    if x < y {
      MulMonotonic(x, y - 1, d);
      assert (y - 1) * d + d == y * d;
    }
  }

  /** The quotient is the one multiple of `d` that fits below `a` with less than `d` to spare. */
  lemma DivUnique(a: int, d: int, q: nat)
    requires d > 0 && q * d <= a < q * d + d
    ensures a / d == q
  {
    var q' := a / d;
    assert a == d * q' + a % d;
    assert q' * d <= a < q' * d + d;
    assert (q' + 1) * d == q' * d + d;
    assert (q + 1) * d == q * d + d;
    if q' < q {
      MulMonotonic(q' + 1, q, d);
    } else if q' > q {
      MulMonotonic(q + 1, q', d);
    }
  }

  lemma CeilDivStep(n: nat, d: nat)
    requires d >= 1
    ensures CeilDiv(n + d, d) == CeilDiv(n, d) + 1
    ensures 0 < n <= d ==> CeilDiv(n, d) == 1
  {
    var q := (n + d - 1) / d;
    assert q * d <= n + d - 1 < q * d + d;
    DivUnique(n + d - 1, d, q);
    assert (q + 1) * d == q * d + d;
    DivUnique(n + d + d - 1, d, q + 1);
    if 0 < n <= d {
      DivUnique(n + d - 1, d, 1);
    }
  }

  /** Each batch is non-empty and at most `size` long, and all but the last have exactly `size`. */
  predicate EvenlyCut(batches: seq<seq<string>>, size: nat) {
    && (forall k :: 0 <= k < |batches| ==> 1 <= |batches[k]| <= size)
    && (forall k :: 0 <= k < |batches| - 1 ==> |batches[k]| == size)
  }

  /**
   The batches from `start` on: laid end to end they are `uids[start:]`, they are evenly cut,
   and there are `ceil(n / size)` of them for the `n` identifiers from `start` on.
   */
  lemma {:induction false} BatchesFromSpec(uids: seq<string>, size: nat, start: nat)
    requires size >= 1 && start <= |uids|
    ensures Flatten(BatchesFrom(uids, size, start)) == uids[start..]
    ensures |BatchesFrom(uids, size, start)| == CeilDiv(|uids| - start, size)
    ensures EvenlyCut(BatchesFrom(uids, size, start), size)
    decreases |uids| - start
  {
    var batches := BatchesFrom(uids, size, start);
    if start == |uids| {
      assert CeilDiv(0, size) == 0;
    } else {
      var stop := Min(start + size, |uids|);
      var head := uids[start..stop];
      assert batches == [head] + BatchesFrom(uids, size, start + size);
      if start + size <= |uids| {
        BatchesFromSpec(uids, size, start + size);
        CeilDivStep(|uids| - start - size, size);
        assert uids[start..] == head + uids[start + size..];
      } else {
        CeilDivStep(|uids| - start, size);
        assert batches == [head];
      }
    }
  }

  /** A UID set: the identifiers of one batch joined by commas (`sequence-set`, section 9 of RFC 3501). */
  function UidSet(batch: seq<string>): string {
    Join(",", batch)
  }

  /** A UID set of identifiers without commas reads back, split at its commas, as its batch. */
  lemma UidSetReadsBack(batch: seq<string>)
    requires |batch| >= 1 && forall k :: 0 <= k < |batch| ==> ',' !in batch[k]
    ensures Split(UidSet(batch), ",") == batch
  {
    SplitJoin(',', batch);
  }

  /** The commands for a list of batches: for each, one `UID STORE +FLAGS (\Deleted)` on its set, then EXPUNGE. */
  function BatchCommands(batches: seq<seq<string>>): (cmds: seq<Command>)
    ensures |cmds| == 2 * |batches|
  {
    if batches == [] then []
    else [UidStore(UidSet(batches[0]), AddFlags, DeletedFlag), Expunge] + BatchCommands(batches[1..])
  }

  /** Two commands per batch, in batch order: its STORE on the batch's UID set, then an EXPUNGE. */
  predicate StoreThenExpunge(cmds: seq<Command>, batches: seq<seq<string>>) {
    && |cmds| == 2 * |batches|
    && forall k :: 0 <= k < |batches| ==>
         cmds[2 * k] == UidStore(UidSet(batches[k]), AddFlags, DeletedFlag) && cmds[2 * k + 1] == Expunge
  }

  /** The commands of the batches: each batch's STORE on its UID set, immediately followed by EXPUNGE. */
  lemma {:induction false} BatchCommandsShape(batches: seq<seq<string>>)
    ensures StoreThenExpunge(BatchCommands(batches), batches)
  {
    if batches != [] {
      BatchCommandsShape(batches[1..]);
      StoreThenExpungeCons(batches, BatchCommands(batches[1..]));
    }
  }

  /** The deletion commands never log out. */
  lemma {:induction false} BatchCommandsStayLoggedIn(batches: seq<seq<string>>)
    ensures Logout !in BatchCommands(batches)
  {
    if batches != [] {
      BatchCommandsStayLoggedIn(batches[1..]);
    }
  }

  /** The STORE and EXPUNGE of a first batch in front of those of the others. */
  lemma StoreThenExpungeCons(batches: seq<seq<string>>, tail: seq<Command>)
    requires batches != [] && StoreThenExpunge(tail, batches[1..])
    ensures StoreThenExpunge([UidStore(UidSet(batches[0]), AddFlags, DeletedFlag), Expunge] + tail, batches)
  {
    var cmds := [UidStore(UidSet(batches[0]), AddFlags, DeletedFlag), Expunge] + tail;
    forall k | 1 <= k < |batches|
      ensures cmds[2 * k] == UidStore(UidSet(batches[k]), AddFlags, DeletedFlag) && cmds[2 * k + 1] == Expunge
    {
      assert cmds[2 * k] == tail[2 * (k - 1)];
      assert cmds[2 * k + 1] == tail[2 * (k - 1) + 1];
      assert batches[1..][k - 1] == batches[k];
    }
  }

  /** The commands for the batches from `start` on: those of the first batch, then those of the rest. */
  lemma BatchCommandsFrom(uids: seq<string>, size: nat, start: nat)
    requires size >= 1 && start < |uids|
    ensures BatchCommands(BatchesFrom(uids, size, start))
      == [UidStore(UidSet(uids[start..Min(start + size, |uids|)]), AddFlags, DeletedFlag), Expunge]
         + BatchCommands(BatchesFrom(uids, size, start + size))
  {
    var rest := BatchesFrom(uids, size, start + size);
    assert ([uids[start..Min(start + size, |uids|)]] + rest)[1..] == rest;
  }

  /** Sending the commands of the batch at `start` leaves the commands of the batches after it to go. */
  lemma BatchDone(uids: seq<string>, size: nat, start: nat, before: seq<Command>, after: seq<Command>, all: seq<Command>)
    requires size >= 1 && start < |uids|
    requires before + BatchCommands(BatchesFrom(uids, size, start)) == all
    requires after == before + [UidStore(UidSet(uids[start..Min(start + size, |uids|)]), AddFlags, DeletedFlag), Expunge]
    ensures after + BatchCommands(BatchesFrom(uids, size, start + size)) == all
  {
    BatchCommandsFrom(uids, size, start);
  }

  /**
   When no identifier holds a comma, the server reads each batch's UID set back as that batch,
   so the STOREs together flag every matched identifier, each in exactly one batch.
   */
  lemma UidSetsReadBack(uids: seq<string>, size: nat)
    requires size >= 1
    requires forall u :: u in uids ==> ',' !in u
    ensures Flatten(Batches(uids, size)) == uids
    ensures forall k :: 0 <= k < |Batches(uids, size)| ==>
      Split(UidSet(Batches(uids, size)[k]), ",") == Batches(uids, size)[k]
  {
    var batches := Batches(uids, size);
    forall k | 0 <= k < |batches|
      ensures Split(UidSet(batches[k]), ",") == batches[k]
    {
      BatchMembers(uids, size, 0, k);
      UidSetReadsBack(batches[k]);
    }
  }

  /** Every identifier of a batch is one of the matched identifiers. */
  lemma {:induction false} BatchMembers(uids: seq<string>, size: nat, start: nat, k: nat)
    requires size >= 1 && k < |BatchesFrom(uids, size, start)|
    ensures |BatchesFrom(uids, size, start)[k]| >= 1
    ensures forall u :: u in BatchesFrom(uids, size, start)[k] ==> u in uids
    decreases |uids| - start
  {
    if k > 0 {
      BatchMembers(uids, size, start + size, k - 1);
    }
  }

  // ---------------------------------------------------------------- the whole deletion

  /** `bulk_delete` goes on to delete only if the search succeeded with a non-empty reply line. */
  predicate Matched(reply: SearchReply) {
    reply.status == OK && reply.line != []
  }

  /** What `bulk_delete` reports. */
  datatype BulkOutcome = NoCriteria | NoMatches | Deleted(count: nat) {
    /**
     The text `bulk_delete` returns for this outcome. Its first character tells the three kinds
     apart, and a deletion's text carries the count in decimal.
     */
    function Report(): (text: string)
      ensures |text| >= 1
      ensures text[0] == '\U{26A0}' <==> this.NoCriteria?
      ensures text[0] == '\U{2705}' <==> this.Deleted?
      ensures this.Deleted? ==> exists i, j :: 0 <= i <= j <= |text| && ParseInt(text[i..j]) == Some(count)
    {
      match this
      case NoCriteria => "\U{26A0}\U{FE0F} No criteria specified for bulk delete."
      case NoMatches => "No emails found matching criteria."
      case Deleted(n) =>
        var digits := NatToString(n);
        var text := DeletedLead + digits + DeletedTail;
        ParseIntOfNatToString(n);
        assert text[|DeletedLead|..|DeletedLead| + |digits|] == digits;
        text
    }
  }

  const DeletedLead: string := "\U{2705} Deleted "
  const DeletedTail: string := " emails matching criteria"

  /** Different outcomes are reported differently: the report determines the outcome, count included. */
  lemma ReportsDistinct(a: BulkOutcome, b: BulkOutcome)
    requires a.Report() == b.Report()
    ensures a == b
  {
    if a.Deleted? && b.Deleted? {
      var x, y := NatToString(a.count), NatToString(b.count);
      var text := a.Report();
      assert text == DeletedLead + x + DeletedTail == DeletedLead + y + DeletedTail;
      assert |x| == |y|;
      assert x == text[|DeletedLead|..|DeletedLead| + |x|] == y;
      DigitsValueOfNatToString(a.count);
      DigitsValueOfNatToString(b.count);
    }
  }

  /**
   The commands `bulk_delete` issues after its SELECT, given the keys and the search reply.
   Without criteria there are none. Otherwise the first is the UID SEARCH on the keys joined by
   spaces, and without matches it is the only one.
   */
  function BulkCommands(keys: seq<string>, reply: SearchReply, size: nat): (cmds: seq<Command>)
    requires size >= 1
    ensures keys == [] ==> cmds == []
    ensures keys != [] ==> |cmds| >= 1 && cmds[0] == UidSearch(Join(" ", keys))
    ensures keys != [] && !Matched(reply) ==> |cmds| == 1
  {
    if keys == [] then []
    else
      var deletions := if Matched(reply) then BatchCommands(Batches(Words(reply.line), size)) else [];
      [UidSearch(Join(" ", keys))] + deletions
  }

  /** Nothing `bulk_delete` issues after its SELECT is a LOGOUT. */
  lemma BulkCommandsStayLoggedIn(keys: seq<string>, reply: SearchReply, size: nat)
    requires size >= 1
    ensures Logout !in BulkCommands(keys, reply, size)
  {
    if keys != [] && Matched(reply) {
      BatchCommandsStayLoggedIn(Batches(Words(reply.line), size));
    }
  }

  /**
   With criteria and matches, a bulk deletion follows its search with a STORE then an EXPUNGE
   for each batch of the `n` matched identifiers, in batch order, and reports `n` deleted.
   */
  lemma BulkDeletion(keys: seq<string>, reply: SearchReply, size: nat)
    requires size >= 1 && keys != [] && Matched(reply)
    ensures StoreThenExpunge(BulkCommands(keys, reply, size)[1..], Batches(Words(reply.line), size))
    ensures BulkOutcomeOf(keys, reply) == Deleted(|Words(reply.line)|)
  {
    var batches := Batches(Words(reply.line), size);
    BatchCommandsShape(batches);
    assert BulkCommands(keys, reply, size)[1..] == BatchCommands(batches);
  }

  /**
   The outcome of a bulk deletion: no criteria exactly when there are no keys, no matches exactly
   when the search failed or came back empty, and otherwise the number of matched identifiers.
   */
  function BulkOutcomeOf(keys: seq<string>, reply: SearchReply): (outcome: BulkOutcome)
    ensures outcome == NoCriteria <==> keys == []
    ensures outcome == NoMatches <==> keys != [] && !Matched(reply)
    ensures outcome.Deleted? ==> outcome.count == |Words(reply.line)|
  {
    if keys == [] then NoCriteria
    else if !Matched(reply) then NoMatches
    else Deleted(|Words(reply.line)|)
  }
}
