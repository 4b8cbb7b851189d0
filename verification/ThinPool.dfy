/** Thin pool messages and the transaction id that guards them: what
    dm_tree_node_add_thin_pool_message accepts, and what repeated, interrupted runs
    of _node_send_messages do to the pool. */
module ThinPool {
  import opened Decimal
  import opened KernelWords
  import opened Wrappers

  const TWO32: nat := 0x1_0000_0000
  const TWO64: nat := 0x1_0000_0000_0000_0000
  const MAX_DEVICE_ID: nat := 0xFF_FFFF

  datatype Message =
    | CreateSnap(id: nat, origin: nat)
    | CreateThin(id: nat)
    | Delete(id: nat)
    | SetTransactionId(current: nat, next: nat)

  /** The pool as the kernel holds it. */
  datatype Pool = Pool(transactionId: nat, devices: set<nat>)

  datatype Errno = EEXIST | ENODATA | EINVAL

  // ---- one message ----

  /** The kernel's answer to a message. */
  function Refusal(p: Pool, m: Message): Option<Errno> {
    match m
    case CreateSnap(id, origin) =>
      if id in p.devices then Some(EEXIST) else if origin !in p.devices then Some(ENODATA) else None
    case CreateThin(id) => if id in p.devices then Some(EEXIST) else None
    case Delete(id) => if id !in p.devices then Some(ENODATA) else None
    case SetTransactionId(current, _) => if p.transactionId != current then Some(EINVAL) else None
  }

  /** tm->expected_errno: the refusal that counts as success. */
  function Expected(m: Message): Option<Errno> {
    match m
    case CreateThin(_) => Some(EEXIST)
    case Delete(_) => Some(ENODATA)
    case _ => None
  }

  predicate Accepted(p: Pool, m: Message) {
    Refusal(p, m).None? || Refusal(p, m) == Expected(m)
  }

  function Sent(p: Pool, m: Message): Pool {
    if Refusal(p, m).Some? then p
    else match m
      case CreateSnap(id, _) => p.(devices := p.devices + {id})
      case CreateThin(id) => p.(devices := p.devices + {id})
      case Delete(id) => p.(devices := p.devices - {id})
      case SetTransactionId(_, next) => p.(transactionId := next)
  }

  function SentAll(p: Pool, ms: seq<Message>): Pool {
    if ms == [] then p else Sent(SentAll(p, ms[..|ms| - 1]), ms[|ms| - 1])
  }

  predicate AllAccepted(p: Pool, ms: seq<Message>) {
    ms == [] || (AllAccepted(p, ms[..|ms| - 1]) && Accepted(SentAll(p, ms[..|ms| - 1]), ms[|ms| - 1]))
  }

  // ---- which message decides about a device ----

  predicate Mentions(m: Message, x: nat) {
    !m.SetTransactionId? && m.id == x
  }

  predicate Mentioned(ms: seq<Message>, x: nat) {
    exists i :: 0 <= i < |ms| && Mentions(ms[i], x)
  }

  predicate Deleted(ms: seq<Message>, x: nat) {
    exists i :: 0 <= i < |ms| && ms[i] == Delete(x)
  }

  predicate IsBody(ms: seq<Message>) {
    forall i :: 0 <= i < |ms| ==> !ms[i].SetTransactionId?
  }

  /** Two pools that went through the same accepted messages agree on every device
      those messages mention, and differ elsewhere as they did before. */
  lemma {:induction false} SameMessages(p: Pool, q: Pool, ms: seq<Message>, x: nat)
    requires AllAccepted(p, ms) && AllAccepted(q, ms)
    ensures Mentioned(ms, x) ==> (x in SentAll(p, ms).devices <==> x in SentAll(q, ms).devices)
    ensures !Mentioned(ms, x) ==> (x in SentAll(p, ms).devices <==> x in p.devices)
  {
    if ms != [] {
      var init, m := ms[..|ms| - 1], ms[|ms| - 1];
      SameMessages(p, q, init, x);
      assert Mentioned(ms, x) <==> Mentioned(init, x) || Mentions(m, x) by {
        assert ms == init + [m];
        if Mentioned(init, x) {
          var i :| 0 <= i < |init| && Mentions(init[i], x);
          assert Mentions(ms[i], x);
        }
        if Mentions(m, x) {
          assert Mentions(ms[|ms| - 1], x);
        }
      }
    }
  }

  lemma {:induction false} PrefixAccepted(p: Pool, ms: seq<Message>, n: nat)
    requires AllAccepted(p, ms) && n <= |ms|
    ensures AllAccepted(p, ms[..n])
    ensures n < |ms| ==> Accepted(SentAll(p, ms[..n]), ms[n])
    decreases |ms|
  {
    if n < |ms| - 1 {
      PrefixAccepted(p, ms[..|ms| - 1], n);
      assert ms[..|ms| - 1][..n] == ms[..n];
    } else if n == |ms| {
      assert ms[..n] == ms;
    }
  }

  lemma {:induction false} BodyKeepsId(p: Pool, ms: seq<Message>)
    requires IsBody(ms)
    ensures SentAll(p, ms).transactionId == p.transactionId
  {
    if ms != [] {
      BodyKeepsId(p, ms[..|ms| - 1]);
    }
  }

  // ---- when may the list be sent again from the start? ----

  /** Each snapshot's id was dealt with earlier in the list, and its origin too
      unless the list never deletes it. */
  ghost predicate RetrySafe(ms: seq<Message>) {
    forall i :: 0 <= i < |ms| && ms[i].CreateSnap? ==>
      Mentioned(ms[..i], ms[i].id) && (Mentioned(ms[..i], ms[i].origin) || !Deleted(ms, ms[i].origin))
  }

  /** What every interrupted run leaves true of the devices. */
  ghost predicate Reached(p: Pool, ms: seq<Message>, s: Pool) {
    && (forall x :: !Mentioned(ms, x) ==> (x in s.devices <==> x in p.devices))
    && (forall x :: x in p.devices && !Deleted(ms, x) ==> x in s.devices)
  }

  lemma {:induction false} ReachedStays(p: Pool, ms: seq<Message>, s: Pool, k: nat)
    requires IsBody(ms) && Reached(p, ms, s) && k <= |ms| && AllAccepted(s, ms[..k])
    ensures Reached(p, ms, SentAll(s, ms[..k]))
    decreases k
  {
    if k > 0 {
      assert ms[..k][..k - 1] == ms[..k - 1];
      ReachedStays(p, ms, s, k - 1);
      var before, after, m := SentAll(s, ms[..k - 1]), SentAll(s, ms[..k]), ms[k - 1];
      forall x | !Mentioned(ms, x)
        ensures x in after.devices <==> x in p.devices
      {
        assert !Mentions(ms[k - 1], x);
      }
      forall x | x in p.devices && !Deleted(ms, x)
        ensures x in after.devices
      {
        assert ms[k - 1] != Delete(x);
      }
    } else {
      assert ms[..0] == [];
    }
  }

  /** From any such state the whole list is accepted again. */
  lemma {:induction false} AcceptedAgain(p: Pool, ms: seq<Message>, s: Pool, n: nat)
    requires IsBody(ms) && RetrySafe(ms) && AllAccepted(p, ms) && Reached(p, ms, s) && n <= |ms|
    ensures AllAccepted(s, ms[..n])
    decreases n
  {
    if n > 0 {
      AcceptedAgain(p, ms, s, n - 1);
      assert ms[..n][..n - 1] == ms[..n - 1];
      PrefixAccepted(p, ms, n - 1);
      var m := ms[n - 1];
      if m.CreateSnap? {
        assert Mentioned(ms[..n - 1], m.id);
        SameMessages(p, s, ms[..n - 1], m.id);
        SameMessages(p, s, ms[..n - 1], m.origin);
        SameMessages(s, s, ms[..n - 1], m.origin);
      }
    }
  }

  /** If the condition fails, some interruption makes the list unsendable. */
  lemma UnsafeBlocks(p: Pool, ms: seq<Message>) returns (k: nat)
    requires IsBody(ms) && !RetrySafe(ms) && AllAccepted(p, ms)
    ensures k <= |ms| && !AllAccepted(SentAll(p, ms[..k]), ms)
  {
    var i :| 0 <= i < |ms| && ms[i].CreateSnap? &&
      !(Mentioned(ms[..i], ms[i].id) && (Mentioned(ms[..i], ms[i].origin) || !Deleted(ms, ms[i].origin)));
    var x;
    if !Mentioned(ms[..i], ms[i].id) {
      k, x := i + 1, ms[i].id;
    } else {
      var j :| 0 <= j < |ms| && ms[j] == Delete(ms[i].origin);
      k, x := j + 1, ms[i].origin;
    }
    var s := SentAll(p, ms[..k]);
    PrefixAccepted(p, ms, k - 1);
    assert ms[..k][..k - 1] == ms[..k - 1];
    if AllAccepted(s, ms) {
      PrefixAccepted(s, ms, i);
      SameMessages(s, s, ms[..i], x);
      assert false;
    }
  }

  /** Whatever prefix an interrupted run sent, the list can be sent again from the
      start: exactly the lists above. */
  lemma RetryIff(p: Pool, ms: seq<Message>)
    requires IsBody(ms) && AllAccepted(p, ms)
    ensures RetrySafe(ms) <==> forall k :: 0 <= k <= |ms| ==> AllAccepted(SentAll(p, ms[..k]), ms)
  {
    if RetrySafe(ms) {
      forall k | 0 <= k <= |ms| ensures AllAccepted(SentAll(p, ms[..k]), ms) {
        assert Reached(p, ms, p);
        PrefixAccepted(p, ms, k);
        ReachedStays(p, ms, p, k);
        AcceptedAgain(p, ms, SentAll(p, ms[..k]), |ms|);
        assert ms[..|ms|] == ms;
      }
    } else {
      var k := UnsafeBlocks(p, ms);
    }
  }

  // ---- runs ----

  function Previous(t: nat): nat {
    (t + TWO64 - 1) % TWO64
  }

  /** The id the pool must have for the list to be sent. */
  function Due(ms: seq<Message>, t: nat): nat {
    if ms == [] then t else Previous(t)
  }

  /** The message list of a pool that is to get transaction id t. */
  function Full(body: seq<Message>, t: nat): seq<Message> {
    body + [SetTransactionId(Previous(t), t)]
  }

  /** One run of _node_send_messages with send set, ending after any message, or before
      the first because the status query failed. */
  ghost predicate RunStep(p: Pool, ms: seq<Message>, t: nat, p': Pool, ok: bool) {
    if p' == p && !ok then true
    else if p.transactionId == t then p' == p
    else if p.transactionId != Due(ms, t) then false
    else exists k :: 0 <= k <= |ms| && AllAccepted(p, ms[..k]) && p' == SentAll(p, ms[..k]) && (ok ==> k == |ms|)
  }

  /** Before the id moves the list can still be sent; once it has moved the devices
      are as one complete run would have left them. */
  ghost predicate Consistent(p: Pool, body: seq<Message>, t: nat, s: Pool) {
    if s.transactionId == t then s.devices == SentAll(p, body).devices
    else s.transactionId == Previous(t) && Reached(p, body, s)
  }

  lemma RunKeepsConsistent(p: Pool, body: seq<Message>, t: nat, s: Pool, s': Pool, ok: bool)
    requires t < TWO64 && IsBody(body) && RetrySafe(body) && AllAccepted(p, body)
    requires Consistent(p, body, t, s) && RunStep(s, Full(body, t), t, s', ok)
    ensures Consistent(p, body, t, s') && (ok ==> s'.transactionId == t)
  {
    var ms := Full(body, t);
    if s.transactionId != t && (s' != s || ok) {
      var k :| 0 <= k <= |ms| && AllAccepted(s, ms[..k]) && s' == SentAll(s, ms[..k]) && (ok ==> k == |ms|);
      if k <= |body| {
        assert ms[..k] == body[..k];
        ReachedStays(p, body, s, k);
        BodyKeepsId(s, body[..k]);
      } else {
        assert ms[..k] == ms && ms[..|ms| - 1] == body;
        BodyKeepsId(s, body);
        forall x ensures x in SentAll(s, body).devices <==> x in SentAll(p, body).devices {
          SameMessages(p, s, body, x);
          SameMessages(s, s, body, x);
        }
      }
    }
  }

  /** Any number of runs, each cut short anywhere: the id only moves from its old
      value to t, and from then on the devices are as after one complete run. */
  lemma {:induction false} CrashSafe(body: seq<Message>, t: nat, pools: seq<Pool>, oks: seq<bool>)
    requires t < TWO64 && IsBody(body) && RetrySafe(body)
    requires |pools| == |oks| + 1 && pools[0].transactionId == Previous(t) && AllAccepted(pools[0], body)
    requires forall i :: 0 <= i < |oks| ==> RunStep(pools[i], Full(body, t), t, pools[i + 1], oks[i])
    ensures forall i :: 0 <= i < |pools| ==> Consistent(pools[0], body, t, pools[i])
    ensures forall i :: 0 <= i < |oks| && oks[i] ==> pools[i + 1].transactionId == t
    ensures forall i :: 0 <= i < |oks| && pools[i].transactionId == t ==> pools[i + 1] == pools[i]
  {
    if |oks| == 0 {
      assert Reached(pools[0], body, pools[0]);
    } else {
      var n := |oks| - 1;
      CrashSafe(body, t, pools[..n + 1], oks[..n]);
      assert forall i :: 0 <= i <= n ==> pools[..n + 1][i] == pools[i];
      assert RunStep(pools[n], Full(body, t), t, pools[n + 1], oks[n]);
      RunKeepsConsistent(pools[0], body, t, pools[n], pools[n + 1], oks[n]);
    }
  }

  /** An uninterrupted run succeeds from every state that earlier runs can leave. */
  lemma UncutRunSucceeds(p: Pool, body: seq<Message>, t: nat, s: Pool)
    requires t < TWO64 && IsBody(body) && RetrySafe(body) && AllAccepted(p, body) && Consistent(p, body, t, s)
    ensures RunStep(s, Full(body, t), t, Pool(t, SentAll(p, body).devices), true)
    ensures s.transactionId != t ==> s.transactionId == Due(Full(body, t), t) && AllAccepted(s, Full(body, t))
  {
    var ms := Full(body, t);
    var done := Pool(t, SentAll(p, body).devices);
    if s.transactionId != t {
      AcceptedAgain(p, body, s, |body|);
      assert body[..|body|] == body && ms[..|ms| - 1] == body;
      BodyKeepsId(s, body);
      assert AllAccepted(s, ms) && ms[..|ms|] == ms;
      assert forall x :: x in SentAll(s, body).devices <==> x in SentAll(p, body).devices by {
        forall x ensures x in SentAll(s, body).devices <==> x in SentAll(p, body).devices {
          SameMessages(p, s, body, x);
          SameMessages(s, s, body, x);
        }
      }
      assert SentAll(s, ms) == done;
    }
  }

  /** Lists of plain creations and deletions always qualify. */
  lemma PlainIsSafe(p: Pool, body: seq<Message>)
    requires forall i :: 0 <= i < |body| ==> body[i].CreateThin? || body[i].Delete?
    ensures IsBody(body) && RetrySafe(body) && AllAccepted(p, body)
  {
    if body != [] {
      PlainIsSafe(p, body[..|body| - 1]);
    }
  }

  /** A single snapshot cannot be retried. */
  lemma SnapshotBlocks(p: Pool, id: nat, origin: nat)
    requires id !in p.devices && origin in p.devices
    ensures AllAccepted(p, [CreateSnap(id, origin)])
    ensures !AllAccepted(SentAll(p, [CreateSnap(id, origin)]), [CreateSnap(id, origin)])
  {
    assert [CreateSnap(id, origin)][..0] == [];
  }

  // ---- the calls ----

  /** A request to dm_tree_node_add_thin_pool_message; the ids are 64 bits wide. */
  datatype Request = SnapRequest | ThinRequest | DeleteRequest | TransactionRequest | OtherRequest

  /** The message a request stands for, if it is acceptable: device ids are cut to
      32 bits and bounded, and the new transaction id is the pool's and follows
      the current one. */
  function MessageFor(request: Request, id1: nat, id2: nat, t: nat): (r: Option<Message>)
    ensures r.Some? && r.value.SetTransactionId? && t < TWO64 && id1 < TWO64 ==>
      r.value == SetTransactionId(Previous(t), t)
    ensures r.Some? && !r.value.SetTransactionId? ==> r.value.id <= MAX_DEVICE_ID
    ensures r.Some? && t < TWO64 && id1 < TWO64 ==> Sized(r.value)
  {
    match request
    case SnapRequest =>
      if id1 == id2 || id1 % TWO32 > MAX_DEVICE_ID || id2 % TWO32 > MAX_DEVICE_ID then None
      else Some(CreateSnap(id1 % TWO32, id2 % TWO32))
    case ThinRequest => if id1 % TWO32 > MAX_DEVICE_ID then None else Some(CreateThin(id1 % TWO32))
    case DeleteRequest => if id1 % TWO32 > MAX_DEVICE_ID then None else Some(Delete(id1 % TWO32))
    case TransactionRequest =>
      if (id1 + 1) % TWO64 != id2 || id2 != t then None else Some(SetTransactionId(id1, id2))
    case OtherRequest => None
  }

  /** Which requests are taken. */
  predicate Takes(request: Request, id1: nat, id2: nat, t: nat) {
    match request
    case SnapRequest => id1 != id2 && id1 % TWO32 <= MAX_DEVICE_ID && id2 % TWO32 <= MAX_DEVICE_ID
    case TransactionRequest => id2 == t && id2 == (id1 + 1) % TWO64
    case OtherRequest => false
    case _ => id1 % TWO32 <= MAX_DEVICE_ID
  }

  /** What a request that is taken does to any pool once its message is sent. */
  lemma RequestEffect(request: Request, id1: nat, id2: nat, t: nat, p: Pool)
    ensures MessageFor(request, id1, id2, t).Some? <==> Takes(request, id1, id2, t)
    ensures Takes(request, id1, id2, t) ==>
      var m := MessageFor(request, id1, id2, t).value;
      var id, origin := id1 % TWO32, id2 % TWO32;
      match request
      case ThinRequest => Accepted(p, m) && Sent(p, m) == p.(devices := p.devices + {id})
      case DeleteRequest => Accepted(p, m) && Sent(p, m) == p.(devices := p.devices - {id})
      case SnapRequest =>
        && (Accepted(p, m) <==> id !in p.devices && origin in p.devices)
        && (Accepted(p, m) ==> Sent(p, m) == p.(devices := p.devices + {id}))
      case TransactionRequest =>
        && (Accepted(p, m) <==> p.transactionId == id1)
        && (Accepted(p, m) ==> Sent(p, m) == p.(transactionId := id2))
      case OtherRequest => true
  {
    var id := id1 % TWO32;
    if id in p.devices {
      assert p.devices + {id} == p.devices;
    } else {
      assert p.devices - {id} == p.devices;
    }
  }

  /** Ids that differ only above 32 bits are taken, and the kernel never takes the snapshot. */
  lemma SelfSnapshot(id1: nat, id2: nat, t: nat, p: Pool)
    requires id1 != id2 && id1 % TWO32 == id2 % TWO32 <= MAX_DEVICE_ID
    ensures MessageFor(SnapRequest, id1, id2, t).Some?
    ensures !Accepted(p, MessageFor(SnapRequest, id1, id2, t).value)
  {
  }

  // ---- the message as the kernel gets it ----

  const MESSAGE_BUFFER: nat := 64

  function MessageText(m: Message): string {
    match m
    case CreateSnap(id, origin) => "create_snap " + Natural(id) + " " + Natural(origin)
    case CreateThin(id) => "create_thin " + Natural(id)
    case Delete(id) => "delete " + Natural(id)
    case SetTransactionId(current, next) => "set_transaction_id " + Natural(current) + " " + Natural(next)
  }

  /** The message in a text, as the kernel takes it. */
  function KernelMessage(text: string): Option<Message> {
    var ws := Words(text);
    var a, b := if |ws| > 1 then Number(ws[1]) else None, if |ws| > 2 then Number(ws[2]) else None;
    if a.None? then None
    else if |ws| == 2 then
      if ws[0] == "create_thin" then Some(CreateThin(a.value))
      else if ws[0] == "delete" then Some(Delete(a.value))
      else None
    else if |ws| == 3 && b.Some? then
      if ws[0] == "create_snap" then Some(CreateSnap(a.value, b.value))
      else if ws[0] == "set_transaction_id" then Some(SetTransactionId(a.value, b.value))
      else None
    else None
  }

  /** Device ids and transaction ids within the width of their C types. */
  predicate Sized(m: Message) {
    match m
    case CreateSnap(id, origin) => id < TWO32 && origin < TWO32
    case SetTransactionId(current, next) => current < TWO64 && next < TWO64
    case _ => m.id < TWO32
  }

  lemma TwoWords(word: string, a: nat)
    requires IsWord(word)
    ensures Words(word + " " + Natural(a)) == [word, Natural(a)]
  {
    hide Words, Natural, IsWord;
    NumeralIsWord(a);
    WordsNext(word, Natural(a));
    OneWord(Natural(a));
    assert word + " " + Natural(a) == word + (" " + Natural(a));
  }

  lemma ThreeWords(word: string, a: nat, b: nat)
    requires IsWord(word)
    ensures Words(word + " " + Natural(a) + " " + Natural(b)) == [word, Natural(a), Natural(b)]
  {
    hide Words, Natural, IsWord;
    var rest := Natural(a) + (" " + Natural(b));
    NumeralIsWord(a);
    NumeralIsWord(b);
    WordsNext(word, rest);
    WordsNext(Natural(a), Natural(b));
    OneWord(Natural(b));
    assert word + " " + Natural(a) + " " + Natural(b) == word + (" " + rest);
  }

  /** The kernel takes every message for what it is. */
  lemma MessageRead(m: Message)
    ensures KernelMessage(MessageText(m)) == Some(m)
  {
    hide Words, Natural, Number;
    match m
    case CreateSnap(id, origin) =>
      ThreeWords("create_snap", id, origin);
      NumberBack(id);
      NumberBack(origin);
      assert "create_snap" + " " == "create_snap ";
    case CreateThin(id) =>
      TwoWords("create_thin", id);
      NumberBack(id);
      assert "create_thin" + " " == "create_thin ";
    case Delete(id) =>
      TwoWords("delete", id);
      NumberBack(id);
      assert "delete" + " " == "delete ";
    case SetTransactionId(current, next) =>
      ThreeWords("set_transaction_id", current, next);
      NumberBack(current);
      NumberBack(next);
      assert "set_transaction_id" + " " == "set_transaction_id ";
  }

  lemma Widths()
    ensures TWO32 < Tens(10) && TWO64 < Tens(20)
  {
    assert Tens(5) == 100000;
    assert Tens(10) == 100000 * 100000;
    assert Tens(15) == 100000 * 100000 * 100000;
  }

  /** And its buffer is always large enough. */
  lemma MessageFits(m: Message)
    requires Sized(m)
    ensures |MessageText(m)| < MESSAGE_BUFFER
  {
    hide Natural, Tens;
    Widths();
    match m
    case CreateSnap(id, origin) =>
      NumeralLength(id, 10);
      NumeralLength(origin, 10);
    case CreateThin(id) => NumeralLength(id, 10);
    case Delete(id) => NumeralLength(id, 10);
    case SetTransactionId(current, next) =>
      NumeralLength(current, 20);
      NumeralLength(next, 20);
  }

  /** The messages went out in order, up to some point. */
  ghost predicate Continues(before: seq<Message>, after: seq<Message>, ms: seq<Message>) {
    exists k :: 0 <= k <= |ms| && after == before + ms[..k]
  }

  lemma NothingSent(before: seq<Message>, ms: seq<Message>)
    ensures Continues(before, before, ms)
  {
    assert before == before + ms[..0];
  }

  class PoolDevice {
    const faulty: bool
    var pool: Pool
    ghost var sent: seq<Message>    // every message that was sent, refused or not

    constructor (pool: Pool, faulty: bool)
      ensures this.pool == pool && this.faulty == faulty && sent == []
    {
      this.pool, this.faulty, sent := pool, faulty, [];
    }

    /** _thin_pool_node_message: besides the kernel's refusals the ioctl may fail
        without effect, and the process may end right after it. */
    method Message(m: Message) returns (ok: bool)
      requires Sized(m)
      modifies this
      ensures pool == old(pool) || (pool == Sent(old(pool), m) && Accepted(old(pool), m))
      ensures ok ==> pool == Sent(old(pool), m) && Accepted(old(pool), m)
      ensures !faulty ==> (ok <==> Accepted(old(pool), m)) && (!ok ==> pool == old(pool))
      ensures sent == old(sent) + [m]
    {
      hide Words, Natural, Number, MessageText, KernelMessage;
      var text := MessageText(m);
      MessageFits(m);
      MessageRead(m);
      assert |text| < MESSAGE_BUFFER;
      var arrived := KernelMessage(text);
      sent := sent + [arrived.value];
      var failed: bool, ended: bool := *, *;
      if (failed && faulty) || !Accepted(pool, arrived.value) {
        return false;
      }
      pool := Sent(pool, arrived.value);
      ok := !(ended && faulty);
    }

    /** _thin_pool_status_transaction_id */
    method Status() returns (ok: bool, id: nat)
      ensures ok ==> id == pool.transactionId
      ensures !faulty ==> ok
    {
      ok := *;
      ok := ok || !faulty;
      id := pool.transactionId;
    }
  }

  lemma IdMoved(p: Pool, m: Message)
    requires m.SetTransactionId? && Accepted(p, m)
    ensures Sent(p, m).transactionId == m.next
  {
  }

  class PoolNode {
    const transactionId: nat
    var messages: seq<Message>
    var sendMessages: bool

    ghost predicate Valid()
      reads this
    {
      transactionId < TWO64 && forall i :: 0 <= i < |messages| ==> Sized(messages[i])
    }

    constructor (transactionId: nat)
      requires transactionId < TWO64
      ensures Valid() && this.transactionId == transactionId && messages == []
      ensures sendMessages <==> transactionId != 0
    {
      this.transactionId, messages, sendMessages := transactionId, [], transactionId != 0;
    }

    /** dm_tree_node_add_thin_pool_message */
    method AddMessage(request: Request, id1: nat, id2: nat) returns (ok: bool)
      requires Valid() && id1 < TWO64 && id2 < TWO64
      modifies this
      ensures Valid() && (ok <==> Takes(request, id1, id2, transactionId))
      ensures ok ==> messages == old(messages) + [MessageFor(request, id1, id2, transactionId).value] && sendMessages
      ensures !ok ==> messages == old(messages) && sendMessages == old(sendMessages)
    {
      RequestEffect(request, id1, id2, transactionId, Pool(0, {}));
      hide Takes;
      var m := MessageFor(request, id1, id2, transactionId);
      ok := m.Some?;
      if ok {
        messages, sendMessages := messages + [m.value], true;
      }
    }

    /** _node_send_messages. A status query that fails ends the run as well. Without
        failures it works exactly when the id is reached, or due and every message is
        accepted; what was sent is then the whole list. */
    method SendMessages(dev: PoolDevice, send: bool) returns (ok: bool)
      requires Valid()
      modifies dev, this`sendMessages
      ensures send ==> RunStep(old(dev.pool), messages, transactionId, dev.pool, ok) && (ok ==> !sendMessages)
      ensures Continues(old(dev.sent), dev.sent, messages)
      ensures !send || old(dev.pool).transactionId == transactionId ==>
        dev.pool == old(dev.pool) && dev.sent == old(dev.sent)
      ensures !ok ==> sendMessages == old(sendMessages)
      ensures !dev.faulty ==>
        var p := old(dev.pool);
        var due := p.transactionId == Due(messages, transactionId);
        && (ok <==> p.transactionId == transactionId || (due && (send ==> AllAccepted(p, messages))))
        && (ok && send && p.transactionId != transactionId ==>
              dev.sent == old(dev.sent) + messages && dev.pool == SentAll(p, messages))
    {
      hide Accepted, Sent, Sized;
      NothingSent(dev.sent, messages);
      var got, id := dev.Status();
      if !got {
        return false;
      }
      var haveMessages := if messages != [] then 1 else 0;
      if id == transactionId {
        sendMessages := false;
        return true;
      }
      if id != (transactionId + TWO64 - haveMessages) % TWO64 {
        return false;
      }
      if !send {
        return true;
      }
      ghost var before := dev.pool;
      for i := 0 to |messages|
        invariant AllAccepted(before, messages[..i]) && dev.pool == SentAll(before, messages[..i])
        invariant dev.sent == old(dev.sent) + messages[..i] && sendMessages == old(sendMessages)
      {
        var m := messages[i];
        assert messages[..i + 1][..i] == messages[..i];
        ok := dev.Message(m);
        assert old(dev.sent) + messages[..i] + [m] == old(dev.sent) + messages[..i + 1];
        if !ok {
          if AllAccepted(before, messages) {
            PrefixAccepted(before, messages, i);
          }
          return;
        }
        if m.SetTransactionId? {
          IdMoved(SentAll(before, messages[..i]), m);
          got, id := dev.Status();
          if !got || id != m.next {
            return false;
          }
        }
      }
      assert messages[..|messages|] == messages;
      sendMessages := false;
      return true;
    }
  }
}
