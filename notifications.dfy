/**
 * The notification collection and the two handlers of
 * NotificationController: a provider's latest notifications (`index`) and
 * marking one as read (`update`).
 */
module NotificationController {
  import opened Wrappers
  import opened Queries
  import UserController

  /** The `limit` of `index`. */
  const Limit := 10

  /** A document of the notification collection. */
  datatype Notification = Notification(id: nat, content: string, user: nat, read: bool, createdAt: int)

  datatype NotificationError = NotAProvider {

    /** The HTTP status the handler answers with. */
    function Status(): int { 401 }

    /** The text of the answer. */
    function Message(): string { "Only providers can load notification" }
  }

  /** The requester's notifications, in collection order. */
  function AddressedTo(docs: seq<Notification>, requester: nat): seq<Notification> {
    Filter(docs, (n: Notification) => n.user == requester)
  }

  /** Notifications ordered by `createdAt`, newest first. */
  function NewestFirst(s: seq<Notification>): seq<Notification> {
    SortBy(s, (n: Notification) => -n.createdAt)
  }

  /**
   * `index`: refused unless the requester is a provider; otherwise at most
   * ten of the requester's notifications, newest first.
   */
  function Index(users: seq<UserController.User>, docs: seq<Notification>, requester: nat)
    : (r: Result<seq<Notification>, NotificationError>)
    ensures r.Err? <==> !UserController.IsProvider(users, requester)
    ensures r.Ok? ==> |r.value| <= Limit
    ensures r.Ok? ==> |r.value| == Min(Limit, |AddressedTo(docs, requester)|)
    ensures r.Ok? ==> forall i :: 0 <= i < |r.value| ==> r.value[i] in docs && r.value[i].user == requester
    ensures r.Ok? ==> multiset(r.value) <= multiset(AddressedTo(docs, requester))
    ensures r.Ok? ==> forall i, j :: 0 <= i < j < |r.value| ==> r.value[i].createdAt >= r.value[j].createdAt
  {
    if !UserController.IsProvider(users, requester) then Err(NotAProvider)
    else
      var w := Window(NewestFirst(AddressedTo(docs, requester)), 0, Limit);
      SortedFilterWindow(docs, (n: Notification) => n.user == requester, (n: Notification) => -n.createdAt, 0, Limit);
      Ok(w)
  }

  /**
   * `index` keeps the most recent: any notification of the requester that
   * is left out is no newer than every one returned.
   */
  lemma IndexKeepsMostRecent(users: seq<UserController.User>, docs: seq<Notification>, requester: nat)
    requires UserController.IsProvider(users, requester)
    ensures var r := Index(users, docs, requester).value;
      forall left, shown :: left in docs && left.user == requester && left !in r && shown in r ==>
        left.createdAt <= shown.createdAt
  {
    var mine := AddressedTo(docs, requester);
    var sorted := NewestFirst(mine);
    var r := Index(users, docs, requester).value;
    assert r == Window(sorted, 0, Limit);
    forall left, shown | left in docs && left.user == requester && left !in r && shown in r
      ensures left.createdAt <= shown.createdAt
    {
      var k :| 0 <= k < |docs| && docs[k] == left;
      assert left in mine;
      assert left in multiset(sorted);
      var j :| 0 <= j < |sorted| && sorted[j] == left;
      var i :| 0 <= i < |r| && r[i] == shown;
      assert r[i] == sorted[i];
      assert i < j;
    }
  }

  /** With at most ten notifications addressed to the requester, `index` returns all of them. */
  lemma IndexShowsAllWhenFew(users: seq<UserController.User>, docs: seq<Notification>, requester: nat)
    requires UserController.IsProvider(users, requester)
    requires |AddressedTo(docs, requester)| <= Limit
    ensures multiset(Index(users, docs, requester).value) == multiset(AddressedTo(docs, requester))
  {
    var mine := AddressedTo(docs, requester);
    var sorted := NewestFirst(mine);
    assert |sorted| == |mine| by {
      assert |multiset(sorted)| == |multiset(mine)|;
    }
    assert Window(sorted, 0, Limit) == sorted;
  }

  /** The collection after marking the notification `id` as read: only its `read` field changes. */
  function MarkedRead(docs: seq<Notification>, id: nat): (r: seq<Notification>)
    ensures |r| == |docs|
    ensures forall k :: 0 <= k < |docs| && docs[k].id != id ==> r[k] == docs[k]
    ensures forall k :: 0 <= k < |docs| && docs[k].id == id ==> r[k].read && r[k].(read := docs[k].read) == docs[k]
  {
    seq(|docs|, k requires 0 <= k < |docs| => if docs[k].id == id then docs[k].(read := true) else docs[k])
  }

  /** Marking as read twice is marking as read once. */
  lemma MarkedReadIdempotent(docs: seq<Notification>, id: nat)
    ensures MarkedRead(MarkedRead(docs, id), id) == MarkedRead(docs, id)
  {
  }

  /** Marking a notification that is already read leaves the collection as it was. */
  lemma MarkedReadWhenAlreadyRead(docs: seq<Notification>, id: nat)
    requires forall k :: 0 <= k < |docs| && docs[k].id == id ==> docs[k].read
    ensures MarkedRead(docs, id) == docs
  {
  }

  /** Document ids are unique. */
  ghost predicate UniqueIds(docs: seq<Notification>) {
    forall i, j :: 0 <= i < j < |docs| ==> docs[i].id != docs[j].id
  }

  /** The notification collection, as the handlers see it. */
  class NotificationCollection {
    var docs: seq<Notification>

    ghost predicate Valid()
      reads this
    {
      UniqueIds(docs)
    }

    constructor ()
      ensures Valid() && docs == []
    {
      docs := [];
    }

    /**
     * `NotificationController.update`: `findByIdAndUpdate(id, { read: true },
     * { new: true })` answers the updated document, or null when none has the id.
     */
    method Update(id: nat) returns (r: Option<Notification>)
      requires Valid()
      modifies this
      ensures Valid()
      ensures docs == MarkedRead(old(docs), id)
      ensures r.None? <==> forall k :: 0 <= k < |old(docs)| ==> old(docs)[k].id != id
      ensures r.Some? ==> exists k :: 0 <= k < |docs| && docs[k] == r.value && r.value == old(docs)[k].(read := true)
      ensures r.Some? ==> r.value.id == id && r.value.read
    {
      var found := IndexWhere(docs, (n: Notification) => n.id == id);
      if found.None? {
        MarkedReadWhenAlreadyRead(docs, id);
        return None;
      }
      var k := found.value;
      var updated := docs[k].(read := true);
      ghost var expected := MarkedRead(docs, id);
      docs := docs[k := updated];
      assert docs == expected by {
        forall j | 0 <= j < |docs| ensures docs[j] == expected[j] {
          if j != k {
            assert old(docs)[j].id != id;
          }
        }
      }
      r := Some(updated);
    }
  }
}
