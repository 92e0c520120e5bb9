/** The message table and its service (MessageService.java, UserMessage.java):
    create, newest-first paging, delete and edit. */
module Messages {
  import opened Outcomes
  import opened Users
  import Sessions
  import UserRepository

  /** A row of learn_user_messages; sentAt is the insert time. */
  datatype UserMessage = UserMessage(id: int, author: LearnUser, text: string, sentAt: int)

  /** MessageResponse(id, message, sentAt, authorName, authorRole). */
  datatype MessageResponse = MessageResponse(id: int, message: string, sentAt: int, authorName: string, authorRole: UserRole)

  /** messageToResponse: the row's own fields, with the author's username and role. */
  function MessageToResponse(m: UserMessage): (r: MessageResponse)
    ensures r.id == m.id && r.message == m.text && r.sentAt == m.sentAt
    ensures r.authorName == Username(m.author) == m.author.login && r.authorRole == m.author.role
  {
    MessageResponse(m.id, m.text, m.sentAt, Username(m.author), m.author.role)
  }

  type MessageTable = map<int, UserMessage>

  ghost predicate WellKeyed(messages: MessageTable)
  {
    forall id :: id in messages ==> messages[id].id == id
  }

  /** x is listed before y: both are rows, a later sentAt comes first, and on
      equal sentAt the larger id. */
  predicate Before(messages: MessageTable, x: int, y: int)
  {
    && x in messages && y in messages
    && (messages[x].sentAt > messages[y].sentAt || (messages[x].sentAt == messages[y].sentAt && x > y))
  }

  /** Every id of the sequence comes before every later one. */
  ghost predicate InListingOrder(messages: MessageTable, r: seq<int>)
  {
    forall i, j :: 0 <= i < j < |r| ==> Before(messages, r[i], r[j])
  }

  /** An id that comes before all of an ordered sequence can head it. */
  lemma PrependInOrder(messages: MessageTable, top: int, rest: seq<int>)
    requires InListingOrder(messages, rest)
    requires forall x :: x in rest ==> Before(messages, top, x)
    ensures InListingOrder(messages, [top] + rest)
  {
    var r := [top] + rest;
    forall i, j | 0 <= i < j < |r|
      ensures Before(messages, r[i], r[j])
    {
      assert r[j] == rest[j - 1];
      if i > 0 {
        assert r[i] == rest[i - 1];
      }
    }
  }

  /** Some id of a non-empty set is listed before all the others. */
  lemma {:induction false} NewestExists(messages: MessageTable, ids: set<int>)
    requires ids != {} && ids <= messages.Keys
    ensures exists x :: x in ids && forall y :: y in ids && y != x ==> Before(messages, x, y)
    decreases |ids|
  {
    UserRepository.HasMember(ids);
    var x :| x in ids;
    if ids != {x} {
      var rest := ids - {x};
      assert rest < ids;
      assert rest != {} by { assert ids == rest + {x}; }
      NewestExists(messages, rest);
      var m :| m in rest && forall y :: y in rest && y != m ==> Before(messages, m, y);
      var top := if Before(messages, x, m) then x else m;
      forall y | y in ids && y != top
        ensures Before(messages, top, y)
      {
        if y != x && y != m {
          assert Before(messages, m, y);
        }
      }
      assert top in ids;
    } else {
      assert forall y :: y in ids && y != x ==> Before(messages, x, y);
    }
  }

  /** The ids of the table in listing order: Sort.by("sentAt").descending(). */
  function NewestFirst(messages: MessageTable, ids: set<int>): (r: seq<int>)
    requires ids <= messages.Keys
    ensures |r| == |ids|
    ensures forall x :: x in r <==> x in ids
    ensures InListingOrder(messages, r)
    decreases ids
  {
    if ids == {} then []
    else
      NewestExists(messages, ids);
      var top :| top in ids && forall y :: y in ids && y != top ==> Before(messages, top, y);
      var rest := NewestFirst(messages, ids - {top});
      PrependInOrder(messages, top, rest);
      assert ids == (ids - {top}) + {top};
      [top] + rest
  }

  /** Listing order is strict, so no id is listed twice. */
  lemma NewestFirstDistinct(messages: MessageTable)
    ensures var r := NewestFirst(messages, messages.Keys);
      forall i, j :: 0 <= i < j < |r| ==> r[i] != r[j]
  {
    var r := NewestFirst(messages, messages.Keys);
    assert InListingOrder(messages, r);
  }

  /** One page of a Spring Data Page<MessageResponse>. */
  datatype Page = Page(content: seq<MessageResponse>, number: int, size: int, totalElements: nat, totalPages: nat)

  function Min(a: int, b: int): int { if a < b then a else b }

  /** The up to `count` elements of `all` from index `from` on. */
  function Slice<T>(all: seq<T>, from: nat, count: nat): (r: seq<T>)
    ensures |r| <= count
    ensures forall i :: 0 <= i < |r| ==> from + i < |all| && r[i] == all[from + i]
    ensures |r| == if from >= |all| then 0 else Min(count, |all| - from)
  {
    if from >= |all| then [] else all[from .. Min(|all|, from + count)]
  }

  function CeilDiv(n: nat, d: nat): (q: nat)
    requires d >= 1
    ensures (q - 1) * d < n <= q * d || (n == 0 && q == 0)
  {
    (n + d - 1) / d
  }

  /** The ids on page `page` of the newest-first listing. */
  function PageIds(messages: MessageTable, page: nat, limit: nat): (ids: seq<int>)
    ensures |ids| <= limit
    ensures forall i :: 0 <= i < |ids| ==> ids[i] in messages
    ensures InListingOrder(messages, ids)
    ensures var from, listing := PageStart(page, limit), NewestFirst(messages, messages.Keys);
      && |ids| == (if from >= |messages| then 0 else Min(limit, |messages| - from))
      && forall i :: 0 <= i < |ids| ==> ids[i] == listing[from + i]
  {
    var listing := NewestFirst(messages, messages.Keys);
    var ids := Slice(listing, PageStart(page, limit), limit);
    SliceInOrder(messages, listing, PageStart(page, limit), limit);
    ids
  }

  /** A slice of a listing of the table is in listing order and lists rows of the table. */
  lemma SliceInOrder(messages: MessageTable, listing: seq<int>, from: nat, count: nat)
    requires InListingOrder(messages, listing)
    requires forall x :: x in listing ==> x in messages
    ensures var ids := Slice(listing, from, count);
      InListingOrder(messages, ids) && forall i :: 0 <= i < |ids| ==> ids[i] in messages
  {
    var ids := Slice(listing, from, count);
    forall i, j | 0 <= i < j < |ids|
      ensures Before(messages, ids[i], ids[j])
    {
      assert ids[i] == listing[from + i] && ids[j] == listing[from + j];
    }
    forall i | 0 <= i < |ids|
      ensures ids[i] in messages
    {
      assert ids[i] == listing[from + i];
    }
  }

  /** The responses on page `page` of the newest-first listing. */
  function PageContent(messages: MessageTable, page: nat, limit: nat): (content: seq<MessageResponse>)
    ensures var ids := PageIds(messages, page, limit);
      && |content| == |ids|
      && forall i :: 0 <= i < |ids| ==> content[i] == MessageToResponse(messages[ids[i]])
  {
    var ids := PageIds(messages, page, limit);
    seq(|ids|, i requires 0 <= i < |ids| => MessageToResponse(messages[ids[i]]))
  }

  /** The message service and the table it writes. */
  class MessageService {
    var messages: MessageTable
    /** The next value of learn_user_messages_id_seq. */
    var nextId: int

    ghost predicate Valid()
      reads this
    {
      WellKeyed(messages) && forall id :: id in messages ==> id < nextId
    }

    constructor ()
      ensures Valid() && messages == map[] && nextId == 1
    {
      messages := map[];
      nextId := 1;
    }

    /** create(message): a new row by the signed-in user, stamped `now`. */
    method Create(principal: Option<LearnUser>, text: string, now: int) returns (r: Result<MessageResponse>)
      requires Valid()
      modifies this
      ensures Valid()
      ensures r.Err? <==> principal.None?
      ensures r.Err? ==> r.failure.Fault? && messages == old(messages) && nextId == old(nextId)
      ensures r.Ok? ==>
        var m := UserMessage(old(nextId), principal.value, text, now);
        && old(nextId) !in old(messages)
        && messages == old(messages)[old(nextId) := m]
        && nextId == old(nextId) + 1
        && r.value == MessageToResponse(m)
    {
      var user := Sessions.AuthorizedUser(principal);
      if user.Err? {
        return Err(user.failure);
      }
      var m := UserMessage(nextId, user.value, text, now);
      messages := messages[nextId := m];
      nextId := nextId + 1;
      r := Ok(MessageToResponse(m));
    }

    /** getMessages(limit, page): page `page` (from 0) of `limit` messages, newest first. */
    function GetMessages(limit: int, page: int): (r: Result<Page>)
      requires Valid()
      reads this
      ensures page < 0 ==> r == Err(Fault("Page index must not be less than zero"))
      ensures page >= 0 && limit < 1 ==> r == Err(Fault("Page size must not be less than one"))
      ensures r.Ok? <==> page >= 0 && limit >= 1
      ensures r.Ok? ==>
        && r.value.number == page && r.value.size == limit
        && r.value.totalElements == |messages|
        && r.value.totalPages == CeilDiv(|messages|, limit)
        && |r.value.content| <= limit
        && (forall i, j :: 0 <= i < j < |r.value.content| ==>
              r.value.content[i].sentAt >= r.value.content[j].sentAt)
        && var from, listing := PageStart(page, limit), NewestFirst(messages, messages.Keys);
           && |r.value.content| == (if from >= |messages| then 0 else Min(limit, |messages| - from))
           && forall i :: 0 <= i < |r.value.content| ==>
                listing[from + i] in messages && r.value.content[i] == MessageToResponse(messages[listing[from + i]])
    {
      if page < 0 then Err(Fault("Page index must not be less than zero"))
      else if limit < 1 then Err(Fault("Page size must not be less than one"))
      else
        Ok(Page(PageContent(messages, page, limit), page, limit, |messages|, CeilDiv(|messages|, limit)))
    }

    /** deleteMessage(id): the row with that id goes, every other row stays. */
    method DeleteMessage(id: int)
      requires Valid()
      modifies this
      ensures Valid()
      ensures messages == old(messages) - {id} && nextId == old(nextId)
    {
      messages := messages - {id};
    }

    /** edit(id, message): 404 for an unknown id, else the text is replaced. */
    method Edit(id: int, text: string) returns (r: Result<MessageResponse>)
      requires Valid()
      modifies this
      ensures Valid() && nextId == old(nextId)
      ensures r.Err? <==> id !in old(messages)
      ensures r.Err? ==> r == Err(ResponseStatus(NOT_FOUND, "Message not found")) && messages == old(messages)
      ensures r.Ok? ==>
        && messages == old(messages)[id := old(messages)[id].(text := text)]
        && r.value == MessageToResponse(messages[id])
        && messages[id].id == id && messages[id].author == old(messages)[id].author
        && messages[id].sentAt == old(messages)[id].sentAt && messages[id].text == text
    {
      if id !in messages {
        return Err(ResponseStatus(NOT_FOUND, "Message not found"));
      }
      var m := messages[id].(text := text);
      messages := messages[id := m];
      r := Ok(MessageToResponse(m));
    }
  }

  /** Consecutive slices of `limit` cover a sequence: element k is entry
      k % limit of slice number k / limit. */
  lemma SlicesCover<T>(all: seq<T>, limit: nat, k: nat)
    requires limit >= 1 && k < |all|
    ensures var page := Slice(all, PageStart(k / limit, limit), limit);
      k % limit < |page| && page[k % limit] == all[k]
  {
    var from, offset := PageStart(k / limit, limit), k % limit;
    DivisionSplits(k, limit);
    var page := Slice(all, from, limit);
    assert from + offset == k;
    assert |page| == Min(limit, |all| - from);
  }

  /** The listing index where page `page` starts. */
  function PageStart(page: nat, limit: nat): nat
  {
    page * limit
  }

  lemma DivisionSplits(k: nat, d: nat)
    requires d >= 1
    ensures (k / d) * d + k % d == k && 0 <= k % d < d && (k / d) * d >= 0
  {
  }

  /** The pages, taken in turn, list every message of the table. */
  lemma {:induction false} PagesCoverListing(messages: MessageTable, limit: nat, k: nat)
    requires limit >= 1 && k < |messages|
    ensures var listing := NewestFirst(messages, messages.Keys);
      var page := Slice(listing, PageStart(k / limit, limit), limit);
      k % limit < |page| && page[k % limit] == listing[k]
  {
    SlicesCover(NewestFirst(messages, messages.Keys), limit, k);
  }

  /** A message created after every other one heads the first page. */
  lemma NewestHeadsFirstPage(messages: MessageTable, id: int)
    requires id in messages
    requires forall other :: other in messages && other != id ==> messages[other].sentAt < messages[id].sentAt
    ensures NewestFirst(messages, messages.Keys)[0] == id
  {
  }
}
