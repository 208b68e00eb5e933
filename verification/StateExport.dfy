/** The cursor-paged state export `execute_export_state` of `Parity4MCIP8-parity195/parity/blockchain.rs`.

    The state at the chosen block is the list of its accounts in trie order; `list_accounts` and
    `list_storage` return the next page strictly after a cursor. Every write to the output stream is one
    token. */
module StateExport {

  datatype Option<T> = None | Some(value: T)
  datatype Slot = Slot(key: nat, value: nat)
  datatype Account = Account(address: nat, balance: nat, nonce: nat, code: seq<nat>, codeHash: nat,
                             storageRoot: Option<nat>, slots: seq<Slot>)
  datatype Options = Options(minBalance: Option<nat>, maxBalance: Option<nat>, code: bool, storage: bool)

  datatype Token =
    | OpenState | CloseState | Comma
    | Head(address: nat, balance: nat, nonce: nat) | CloseAccount
    | CodeHash(hash: nat) | Code(code: seq<nat>)
    | StorageRoot(root: nat) | OpenStorage | Entry(slot: Slot) | CloseStorage

  /** One exported account. */
  datatype Export = Export(address: nat, balance: nat, nonce: nat, codeHash: Option<nat>, code: Option<seq<nat>>,
                           storageRoot: Option<nat>, storage: Option<seq<Slot>>)

  const PAGE: nat := 1000

  // ---------- the client's paging ----------

  ghost predicate DistinctKeys(slots: seq<Slot>) {
    forall i, j :: 0 <= i < j < |slots| ==> slots[i].key != slots[j].key
  }

  ghost predicate Trie(state: seq<Account>) {
    && (forall i, j :: 0 <= i < j < |state| ==> state[i].address != state[j].address)
    && forall i :: 0 <= i < |state| ==> DistinctKeys(state[i].slots)
  }

  /** Position just after a cursor: the first one without a cursor. */
  function AccountsAfter(state: seq<Account>, last: Option<nat>): (p: nat)
    ensures p <= |state|
  {
    if state == [] || last.None? then 0
    else if state[|state| - 1].address == last.value then |state|
    else AccountsAfter(state[..|state| - 1], last)
  }

  function SlotsAfter(slots: seq<Slot>, last: Option<nat>): (p: nat)
    ensures p <= |slots|
  {
    if slots == [] || last.None? then 0
    else if slots[|slots| - 1].key == last.value then |slots|
    else SlotsAfter(slots[..|slots| - 1], last)
  }

  function PageOf<T>(list: seq<T>, from: nat): (r: seq<T>)
    requires from <= |list|
    ensures r == [] <==> from == |list|
    ensures |r| <= PAGE && from + |r| <= |list| && r == list[from..from + |r|]
  {
    if |list| - from > PAGE then list[from..from + PAGE] else list[from..]
  }

  lemma {:induction false} CursorFinds(state: seq<Account>, p: nat)
    requires Trie(state) && p < |state|
    ensures AccountsAfter(state, Some(state[p].address)) == p + 1
  {
    if p < |state| - 1 {
      CursorFinds(state[..|state| - 1], p);
    }
  }

  lemma {:induction false} SlotCursorFinds(slots: seq<Slot>, p: nat)
    requires DistinctKeys(slots) && p < |slots|
    ensures SlotsAfter(slots, Some(slots[p].key)) == p + 1
  {
    if p < |slots| - 1 {
      SlotCursorFinds(slots[..|slots| - 1], p);
    }
  }

  // ---------- what is exported ----------

  predicate Filtered(a: Account, o: Options) {
    (o.minBalance.Some? && a.balance < o.minBalance.value) || (o.maxBalance.Some? && a.balance > o.maxBalance.value)
  }

  function ExportOf(a: Account, o: Options): Export {
    Export(a.address, a.balance, a.nonce,
           if a.code != [] then Some(a.codeHash) else None,
           if a.code != [] && o.code then Some(a.code) else None,
           a.storageRoot,
           if a.storageRoot.Some? && o.storage then Some(a.slots) else None)
  }

  /** A plain scan: the accounts within the balance bounds, in order. */
  function Selected(state: seq<Account>, o: Options): seq<Export> {
    if state == [] then []
    else
      var front, a := Selected(state[..|state| - 1], o), state[|state| - 1];
      if Filtered(a, o) then front else front + [ExportOf(a, o)]
  }

  function Separator(first: bool): seq<Token> { if first then [] else [Comma] }

  function SlotTokens(slots: seq<Slot>): seq<Token> {
    if slots == [] then []
    else SlotTokens(slots[..|slots| - 1]) + Separator(|slots| == 1) + [Entry(slots[|slots| - 1])]
  }

  function HashTokens(hash: Option<nat>): seq<Token> {
    if hash.Some? then [CodeHash(hash.value)] else []
  }

  function CodeTokens(code: Option<seq<nat>>): seq<Token> {
    if code.Some? then [Code(code.value)] else []
  }

  function RootTokens(root: Option<nat>): seq<Token> {
    if root.Some? then [StorageRoot(root.value)] else []
  }

  function StorageTokens(storage: Option<seq<Slot>>): seq<Token> {
    if storage.Some? then [OpenStorage] + SlotTokens(storage.value) + [CloseStorage] else []
  }

  function AccountTokens(e: Export): seq<Token> {
    [Head(e.address, e.balance, e.nonce)] + HashTokens(e.codeHash) + CodeTokens(e.code) +
    RootTokens(e.storageRoot) + StorageTokens(e.storage) + [CloseAccount]
  }

  function Joined(es: seq<Export>): seq<Token> {
    if es == [] then []
    else Joined(es[..|es| - 1]) + Separator(|es| == 1) + AccountTokens(es[|es| - 1])
  }

  function Render(es: seq<Export>): seq<Token> {
    [OpenState] + Joined(es) + [CloseState]
  }

  // ---------- the paging loops ----------

  lemma SlotTokensStep(slots: seq<Slot>, p: nat)
    requires p < |slots|
    ensures SlotTokens(slots[..p + 1]) == SlotTokens(slots[..p]) + Separator(p == 0) + [Entry(slots[p])]
  {
    assert slots[..p + 1][..p] == slots[..p];
  }

  /** The slots of one page. */
  method WriteSlots(slots: seq<Slot>, ghost p: nat, keys: seq<Slot>, lastStorage: Option<nat>, out: seq<Token>)
    returns (last: Option<nat>, written: seq<Token>)
    requires DistinctKeys(slots) && keys != [] && p + |keys| <= |slots| && keys == slots[p..p + |keys|]
    requires (lastStorage.None? <==> p == 0) && out == SlotTokens(slots[..p])
    ensures last.Some? && SlotsAfter(slots, last) == p + |keys| && written == SlotTokens(slots[..p + |keys|])
  {
    hide SlotTokens, SlotsAfter, DistinctKeys;
    last, written := lastStorage, out;
    for k := 0 to |keys|
      invariant last.None? <==> p + k == 0
      invariant k > 0 ==> last == Some(slots[p + k - 1].key)
      invariant written == SlotTokens(slots[..p + k])
    {
      var slot := keys[k];
      SlotTokensStep(slots, p + k);
      if last.Some? {
        written := written + [Comma];
      }
      written := written + [Entry(slot)];
      last := Some(slot.key);
    }
    SlotCursorFinds(slots, p + |keys| - 1);
  }

  /** The inner loop over `list_storage` pages. */
  method WriteStorage(slots: seq<Slot>) returns (out: seq<Token>)
    requires DistinctKeys(slots)
    ensures out == SlotTokens(slots)
  {
    out := [];
    var lastStorage: Option<nat> := None;
    ghost var p := 0;
    assert SlotsAfter(slots, None) == 0 && slots[..0] == [] && SlotTokens([]) == [];
    hide SlotTokens, SlotsAfter, DistinctKeys;
    while true
      invariant 0 <= p <= |slots| && SlotsAfter(slots, lastStorage) == p && (lastStorage.None? <==> p == 0)
      invariant out == SlotTokens(slots[..p])
      decreases |slots| - p
    {
      var keys := PageOf(slots, SlotsAfter(slots, lastStorage));
      if keys == [] {
        break;
      }
      lastStorage, out := WriteSlots(slots, p, keys, lastStorage, out);
      p := p + |keys|;
    }
    assert slots[..p] == slots;
  }

  method WriteCode(a: Account, o: Options, out: seq<Token>) returns (more: seq<Token>)
    ensures var e := ExportOf(a, o); more == out + HashTokens(e.codeHash) + CodeTokens(e.code)
  {
    more := out;
    if a.code != [] {
      more := more + [CodeHash(a.codeHash)];
      if o.code {
        more := more + [Code(a.code)];
      }
    }
  }

  method WriteStorageSection(a: Account, o: Options, out: seq<Token>) returns (more: seq<Token>)
    requires DistinctKeys(a.slots)
    ensures var e := ExportOf(a, o); more == out + RootTokens(e.storageRoot) + StorageTokens(e.storage)
  {
    hide SlotTokens;
    more := out;
    if a.storageRoot.Some? {
      more := more + [StorageRoot(a.storageRoot.value)];
      if o.storage {
        var inner := WriteStorage(a.slots);
        more := more + [OpenStorage] + inner + [CloseStorage];
      }
    }
  }

  /** The body of the account loop after filtering. */
  method WriteAccount(a: Account, o: Options, out: seq<Token>) returns (more: seq<Token>)
    requires DistinctKeys(a.slots)
    ensures more == out + AccountTokens(ExportOf(a, o))
  {
    hide HashTokens, CodeTokens, RootTokens, StorageTokens;
    more := out + [Head(a.address, a.balance, a.nonce)];
    more := WriteCode(a, o, more);
    more := WriteStorageSection(a, o, more);
    more := more + [CloseAccount];
  }

  lemma JoinedStep(es: seq<Export>, e: Export)
    ensures Joined(es + [e]) == Joined(es) + Separator(es == []) + AccountTokens(e)
  {
    hide AccountTokens;
    assert (es + [e])[..|es|] == es;
  }

  lemma SelectedStep(done: seq<Account>, a: Account, o: Options)
    ensures Selected(done + [a], o) ==
            if Filtered(a, o) then Selected(done, o) else Selected(done, o) + [ExportOf(a, o)]
  {
    assert (done + [a])[..|done|] == done;
  }

  /** The output and the counter after the accounts `done`. */
  ghost predicate Written(done: seq<Account>, o: Options, i: nat, out: seq<Token>) {
    i == |Selected(done, o)| && out == [OpenState] + Joined(Selected(done, o))
  }

  /** One step of the account loop: a filtered account is skipped, any other is written after a separator. */
  method WriteIfSelected(ghost done: seq<Account>, a: Account, o: Options, i: nat, out: seq<Token>)
    returns (count: nat, written: seq<Token>)
    requires DistinctKeys(a.slots) && Written(done, o, i, out)
    ensures Written(done + [a], o, count, written)
  {
    hide Joined, Selected, AccountTokens, Filtered, ExportOf;
    count, written := i, out;
    SelectedStep(done, a, o);
    if !Filtered(a, o) {
      JoinedStep(Selected(done, o), ExportOf(a, o));
      if i != 0 {
        written := written + [Comma];
      }
      written := WriteAccount(a, o, written);
      count := i + 1;
    }
  }

  /** The accounts of one page; the cursor follows every account, filtered or not. */
  method WritePage(accounts: seq<Account>, ghost p: nat, page: seq<Account>, o: Options, i: nat, out: seq<Token>)
    returns (count: nat, written: seq<Token>, last: Option<nat>)
    requires Trie(accounts) && page != [] && p + |page| <= |accounts| && page == accounts[p..p + |page|]
    requires Written(accounts[..p], o, i, out)
    ensures Written(accounts[..p + |page|], o, count, written)
    ensures last.Some? && AccountsAfter(accounts, last) == p + |page|
  {
    hide Written;
    count, written, last := i, out, None;
    for k := 0 to |page|
      invariant Written(accounts[..p + k], o, count, written)
      invariant k > 0 ==> last == Some(accounts[p + k - 1].address)
    {
      assert page[k] == accounts[p + k] && accounts[..p + k + 1] == accounts[..p + k] + [page[k]];
      count, written := WriteIfSelected(accounts[..p + k], page[k], o, count, written);
      last := Some(page[k].address);
    }
    CursorFinds(accounts, p + |page| - 1);
  }

  /** `execute_export_state`: without the block there are no pages and the command fails. */
  method ExecuteExportState(state: Option<seq<Account>>, o: Options) returns (out: seq<Token>, ok: bool)
    requires state.Some? ==> Trie(state.value)
    ensures ok <==> state.Some?
    ensures ok ==> out == Render(Selected(state.value, o))
    ensures ok ==> Parse(out).Some? && Reports(Parse(out).value, state.value, o) && Opens(out, state.value, o)
  {
    out := [OpenState];
    if state.Some? {
      DocumentMeaning(state.value, o);
    }
    hide Parse, Reports, Opens;
    if state.None? {
      return out, false;
    }
    var accounts := state.value;
    var last: Option<nat>, i := None, 0;
    ghost var p := 0;
    while true
      invariant 0 <= p <= |accounts| && AccountsAfter(accounts, last) == p && Written(accounts[..p], o, i, out)
      decreases |accounts| - p
    {
      hide Written;
      var page := PageOf(accounts, AccountsAfter(accounts, last));
      if page == [] {
        break;
      }
      i, out, last := WritePage(accounts, p, page, o, i, out);
      p := p + |page|;
    }
    assert accounts[..p] == accounts;
    return out + [CloseState], true;
  }

  // ---------- reading the output back ----------

  datatype Parsed<T> = Fail | Done(result: T, rest: seq<Token>)

  /** Slots up to the closing brace; `first` tells that no separator is due. */
  function ParseSlots(ts: seq<Token>, first: bool): (r: Parsed<seq<Slot>>)
    ensures r.Done? ==> |r.rest| < |ts|
    decreases |ts|, if first then 0 else 1
  {
    if ts == [] then Fail
    else if ts[0] == CloseStorage then Done([], ts[1..])
    else if !first then (if ts[0] == Comma && |ts| > 1 && ts[1].Entry? then ParseSlots(ts[1..], true) else Fail)
    else if ts[0].Entry? then
      match ParseSlots(ts[1..], false)
      case Fail => Fail
      case Done(slots, rest) => Done([ts[0].slot] + slots, rest)
    else Fail
  }

  function ParseStorage(ts: seq<Token>): Parsed<Option<seq<Slot>>> {
    if ts == [] || ts[0] != OpenStorage then Done(None, ts)
    else
      match ParseSlots(ts[1..], true)
      case Fail => Fail
      case Done(slots, rest) => Done(Some(slots), rest)
  }

  function TakeHash(ts: seq<Token>): (Option<nat>, seq<Token>) {
    if ts != [] && ts[0].CodeHash? then (Some(ts[0].hash), ts[1..]) else (None, ts)
  }

  function TakeCode(ts: seq<Token>): (Option<seq<nat>>, seq<Token>) {
    if ts != [] && ts[0].Code? then (Some(ts[0].code), ts[1..]) else (None, ts)
  }

  function TakeRoot(ts: seq<Token>): (Option<nat>, seq<Token>) {
    if ts != [] && ts[0].StorageRoot? then (Some(ts[0].root), ts[1..]) else (None, ts)
  }

  function ParseAccount(ts: seq<Token>): Parsed<Export> {
    if ts == [] || !ts[0].Head? then Fail
    else
      var (hash, t2) := TakeHash(ts[1..]);
      var (code, t3) := TakeCode(t2);
      var (root, t4) := TakeRoot(t3);
      match ParseStorage(t4)
      case Fail => Fail
      case Done(storage, t5) =>
        if t5 == [] || t5[0] != CloseAccount then Fail
        else Done(Export(ts[0].address, ts[0].balance, ts[0].nonce, hash, code, root, storage), t5[1..])
  }

  function ParseAccounts(ts: seq<Token>, first: bool): Parsed<seq<Export>>
    decreases |ts|
  {
    if ts == [] then Fail
    else if ts[0] == CloseState then Done([], ts[1..])
    else if !first && ts[0] != Comma then Fail
    else
      match ParseAccount(if first then ts else ts[1..])
      case Fail => Fail
      case Done(e, rest) =>
        if |rest| >= |ts| then Fail
        else
          match ParseAccounts(rest, false)
          case Fail => Fail
          case Done(es, tail) => Done([e] + es, tail)
  }

  /** The whole document. */
  function Parse(ts: seq<Token>): Option<seq<Export>> {
    if ts == [] || ts[0] != OpenState then None
    else
      match ParseAccounts(ts[1..], true)
      case Fail => None
      case Done(es, rest) => if rest == [] then Some(es) else None
  }

  /** Slots written from position `k` on, each after its separator. */
  function SlotsFrom(slots: seq<Slot>, k: nat): seq<Token>
    requires k <= |slots|
    decreases |slots| - k
  {
    if k == |slots| then [] else Separator(k == 0) + [Entry(slots[k])] + SlotsFrom(slots, k + 1)
  }

  lemma Regroup(a: seq<Token>, b: seq<Token>, c: seq<Token>, d: seq<Token>)
    ensures a + b + c + d == a + (b + c + d)
  {
  }

  lemma {:induction false} SlotsFromSplits(slots: seq<Slot>, k: nat)
    requires k <= |slots|
    ensures SlotTokens(slots) == SlotTokens(slots[..k]) + SlotsFrom(slots, k)
    decreases |slots| - k
  {
    if k == |slots| {
      assert slots[..k] == slots;
    } else {
      SlotsFromSplits(slots, k + 1);
      assert slots[..k + 1][..k] == slots[..k];
      Regroup(SlotTokens(slots[..k]), Separator(k == 0), [Entry(slots[k])], SlotsFrom(slots, k + 1));
    }
  }

  /** Reading one slot after its separator. */
  lemma ParseOneSlot(slot: Slot, next: seq<Token>, first: bool)
    ensures ParseSlots(Separator(first) + ([Entry(slot)] + next), first) ==
            match ParseSlots(next, false)
            case Fail => Fail
            case Done(slots, rest) => Done([slot] + slots, rest)
  {
    var entry := [Entry(slot)] + next;
    assert entry[1..] == next;
    assert first ==> Separator(first) + entry == entry;
    assert !first ==> (Separator(first) + entry)[1..] == entry;
  }

  lemma {:induction false} SlotsReadBack(slots: seq<Slot>, k: nat, rest: seq<Token>)
    requires k <= |slots|
    ensures ParseSlots(SlotsFrom(slots, k) + [CloseStorage] + rest, k == 0) == Done(slots[k..], rest)
    decreases |slots| - k
  {
    var ts := SlotsFrom(slots, k) + [CloseStorage] + rest;
    if k == |slots| {
      assert ts[0] == CloseStorage && ts[1..] == rest && slots[k..] == [];
    } else {
      var next := SlotsFrom(slots, k + 1) + [CloseStorage] + rest;
      assert ts == Separator(k == 0) + ([Entry(slots[k])] + next);
      hide ParseSlots, SlotsFrom, Separator;
      SlotsReadBack(slots, k + 1, rest);
      ParseOneSlot(slots[k], next, k == 0);
      assert slots[k..] == [slots[k]] + slots[k + 1..];
    }
  }

  /** The order in which the parts of an account come. */
  function Rank(t: Token): nat {
    match t
    case CodeHash(_) => 1
    case Code(_) => 2
    case StorageRoot(_) => 3
    case OpenStorage => 4
    case CloseAccount => 5
    case _ => 0
  }

  ghost predicate StartsAfter(k: nat, ts: seq<Token>) {
    ts != [] && Rank(ts[0]) > k
  }

  lemma HashReadsBack(hash: Option<nat>, rest: seq<Token>)
    requires StartsAfter(1, rest)
    ensures TakeHash(HashTokens(hash) + rest) == (hash, rest)
  {
    assert (HashTokens(hash) + rest)[|HashTokens(hash)|..] == rest;
  }

  lemma CodeReadsBack(code: Option<seq<nat>>, rest: seq<Token>)
    requires StartsAfter(2, rest)
    ensures TakeCode(CodeTokens(code) + rest) == (code, rest) && StartsAfter(1, CodeTokens(code) + rest)
  {
    assert (CodeTokens(code) + rest)[|CodeTokens(code)|..] == rest;
  }

  lemma RootReadsBack(root: Option<nat>, rest: seq<Token>)
    requires StartsAfter(3, rest)
    ensures TakeRoot(RootTokens(root) + rest) == (root, rest) && StartsAfter(2, RootTokens(root) + rest)
  {
    assert (RootTokens(root) + rest)[|RootTokens(root)|..] == rest;
  }

  lemma {:induction false} StorageReadsBack(storage: Option<seq<Slot>>, rest: seq<Token>)
    requires StartsAfter(4, rest)
    ensures ParseStorage(StorageTokens(storage) + rest) == Done(storage, rest)
    ensures StartsAfter(3, StorageTokens(storage) + rest)
  {
    if storage.Some? {
      var slots := storage.value;
      var body := SlotsFrom(slots, 0) + [CloseStorage] + rest;
      assert StorageTokens(storage) + rest == [OpenStorage] + body by { StorageBody(slots, rest); }
      SlotsReadBack(slots, 0, rest);
      assert slots[0..] == slots;
      hide ParseSlots, SlotsFrom, StorageTokens;
      assert ([OpenStorage] + body)[1..] == body;
    } else {
      assert StorageTokens(storage) + rest == rest;
    }
  }

  lemma StorageBody(slots: seq<Slot>, rest: seq<Token>)
    ensures StorageTokens(Some(slots)) + rest == [OpenStorage] + (SlotsFrom(slots, 0) + [CloseStorage] + rest)
  {
    SlotsFromSplits(slots, 0);
    assert slots[..0] == [] && SlotTokens([]) == [];
    hide SlotTokens, SlotsFrom;
  }

  lemma {:induction false} AccountReadsBack(e: Export, rest: seq<Token>)
    ensures ParseAccount(AccountTokens(e) + rest) == Done(e, rest)
  {
    hide ParseStorage, TakeHash, TakeCode, TakeRoot, HashTokens, CodeTokens, RootTokens, StorageTokens;
    var t5 := [CloseAccount] + rest;
    var t4 := StorageTokens(e.storage) + t5;
    var t3 := RootTokens(e.storageRoot) + t4;
    var t2 := CodeTokens(e.code) + t3;
    StorageReadsBack(e.storage, t5);
    RootReadsBack(e.storageRoot, t4);
    CodeReadsBack(e.code, t3);
    HashReadsBack(e.codeHash, t2);
    var ts := AccountTokens(e) + rest;
    assert ts == [Head(e.address, e.balance, e.nonce)] + (HashTokens(e.codeHash) + t2);
    assert ts[1..] == HashTokens(e.codeHash) + t2;
    assert t5[1..] == rest;
  }

  function AccountsFrom(es: seq<Export>, k: nat): seq<Token>
    requires k <= |es|
    decreases |es| - k
  {
    if k == |es| then [] else Separator(k == 0) + AccountTokens(es[k]) + AccountsFrom(es, k + 1)
  }

  lemma {:induction false} AccountsFromSplits(es: seq<Export>, k: nat)
    requires k <= |es|
    ensures Joined(es) == Joined(es[..k]) + AccountsFrom(es, k)
    decreases |es| - k
  {
    hide AccountTokens;
    if k == |es| {
      assert es[..k] == es;
    } else {
      AccountsFromSplits(es, k + 1);
      assert es[..k + 1][..k] == es[..k];
      Regroup(Joined(es[..k]), Separator(k == 0), AccountTokens(es[k]), AccountsFrom(es, k + 1));
    }
  }

  lemma AccountTokensStart(e: Export)
    ensures |AccountTokens(e)| >= 2 && AccountTokens(e)[0].Head?
  {
  }

  /** Reading one account after its separator. */
  lemma ParseOneAccount(e: Export, next: seq<Token>, first: bool)
    ensures ParseAccounts(Separator(first) + (AccountTokens(e) + next), first) ==
            match ParseAccounts(next, false)
            case Fail => Fail
            case Done(es, rest) => Done([e] + es, rest)
  {
    AccountTokensStart(e);
    AccountReadsBack(e, next);
    var account := AccountTokens(e) + next;
    hide AccountTokens, ParseAccount;
    assert first ==> Separator(first) + account == account;
    assert !first ==> (Separator(first) + account)[1..] == account;
  }

  lemma {:induction false} AccountsReadBack(es: seq<Export>, k: nat)
    requires k <= |es|
    ensures ParseAccounts(AccountsFrom(es, k) + [CloseState], k == 0) == Done(es[k..], [])
    decreases |es| - k
  {
    hide ParseAccount, AccountTokens;
    var ts := AccountsFrom(es, k) + [CloseState];
    if k == |es| {
      assert ts[0] == CloseState && ts[1..] == [] && es[k..] == [];
    } else {
      var next := AccountsFrom(es, k + 1) + [CloseState];
      assert ts == Separator(k == 0) + (AccountTokens(es[k]) + next);
      hide ParseAccounts, AccountsFrom, Separator;
      AccountsReadBack(es, k + 1);
      ParseOneAccount(es[k], next, k == 0);
      assert es[k..] == [es[k]] + es[k + 1..];
    }
  }

  /** The commas are where a reader needs them: every rendered list reads back as itself. */
  lemma {:induction false} RenderReadsBack(es: seq<Export>)
    ensures Parse(Render(es)) == Some(es)
  {
    hide AccountTokens, ParseAccounts;
    AccountsFromSplits(es, 0);
    AccountsReadBack(es, 0);
    assert es[..0] == [] && es[0..] == es;
    assert Render(es)[1..] == AccountsFrom(es, 0) + [CloseState];
  }

  // ---------- what the document says ----------

  ghost predicate InBounds(balance: nat, o: Options) {
    && (o.minBalance.Some? ==> o.minBalance.value <= balance)
    && (o.maxBalance.Some? ==> balance <= o.maxBalance.value)
  }

  /** An entry shows an account, field by field. */
  ghost predicate Shows(e: Export, a: Account, o: Options) {
    && e.address == a.address && e.balance == a.balance && e.nonce == a.nonce && e.storageRoot == a.storageRoot
    && e.codeHash == (if a.code != [] then Some(a.codeHash) else None)
    && e.code == (if a.code != [] && o.code then Some(a.code) else None)
    && e.storage == (if a.storageRoot.Some? && o.storage then Some(a.slots) else None)
  }

  /** The entries show, in state order, the accounts at the positions `at`, exactly those within the bounds. */
  ghost predicate ReportsAt(es: seq<Export>, state: seq<Account>, o: Options, at: seq<nat>) {
    && |at| == |es|
    && (forall p, q :: 0 <= p < q < |at| ==> at[p] < at[q])
    && (forall i: nat :: i in at <==> i < |state| && InBounds(state[i].balance, o))
    && (forall p :: 0 <= p < |es| ==> at[p] in at && Shows(es[p], state[at[p]], o))
  }

  ghost predicate Reports(es: seq<Export>, state: seq<Account>, o: Options) {
    exists at :: ReportsAt(es, state, o, at)
  }

  /** The entries that the document opens are those of the accounts within the bounds. */
  ghost predicate Opens(out: seq<Token>, state: seq<Account>, o: Options) {
    forall t: Token :: t.Head? ==>
      (t in out <==> exists i :: 0 <= i < |state| && InBounds(state[i].balance, o) && HeadsAccount(t, state[i]))
  }

  ghost predicate HeadsAccount(t: Token, a: Account) { t == Head(a.address, a.balance, a.nonce) }

  ghost predicate HeadsEntry(t: Token, e: Export) { t == Head(e.address, e.balance, e.nonce) }

  /** The positions of the accounts within the bounds. */
  ghost function Positions(state: seq<Account>, o: Options): seq<nat> {
    if state == [] then []
    else
      var n := |state| - 1;
      Positions(state[..n], o) + if InBounds(state[n].balance, o) then [n] else []
  }

  lemma {:induction false} SelectedAtPositions(state: seq<Account>, o: Options)
    ensures ReportsAt(Selected(state, o), state, o, Positions(state, o))
  {
    if state != [] {
      var n := |state| - 1;
      var front, a := state[..n], state[n];
      SelectedAtPositions(front, o);
      assert Filtered(a, o) <==> !InBounds(a.balance, o);
      assert |front| == n;
      assert Shows(ExportOf(a, o), a, o);
      var es, ps := Selected(front, o), Positions(front, o);
      assert Selected(state, o) == if Filtered(a, o) then es else es + [ExportOf(a, o)];
      assert Positions(state, o) == if Filtered(a, o) then ps else ps + [n];
      hide InBounds, Filtered, Shows, ExportOf, Selected, Positions, ReportsAt;
      assert state == front + [a];
      OneMore(es, front, a, ExportOf(a, o), o, ps);
    }
  }

  lemma OneMore(es: seq<Export>, front: seq<Account>, a: Account, e: Export, o: Options, at: seq<nat>)
    requires ReportsAt(es, front, o, at) && Shows(e, a, o)
    ensures if InBounds(a.balance, o) then ReportsAt(es + [e], front + [a], o, at + [|front|])
            else ReportsAt(es, front + [a], o, at)
  {
    hide InBounds, Shows;
    var state := front + [a];
    assert forall i :: 0 <= i < |front| ==> state[i] == front[i];
    var more := at + [|front|];
    assert forall i: nat :: i in more <==> i in at || i == |front|;
    assert forall p :: 0 <= p < |at| ==> at[p] in at;
  }

  lemma {:induction false} SlotsOpenNothing(slots: seq<Slot>)
    ensures forall t :: t in SlotTokens(slots) ==> !t.Head?
  {
    if slots != [] { SlotsOpenNothing(slots[..|slots| - 1]); }
  }

  lemma AccountOpens(e: Export, t: Token)
    requires t.Head?
    ensures t in AccountTokens(e) <==> HeadsEntry(t, e)
  {
    if e.storage.Some? { SlotsOpenNothing(e.storage.value); }
    hide SlotTokens;
  }

  lemma {:induction false} JoinedOpens(es: seq<Export>, t: Token)
    requires t.Head?
    ensures t in Joined(es) <==> exists p :: 0 <= p < |es| && HeadsEntry(t, es[p])
  {
    if es != [] {
      var front, e := es[..|es| - 1], es[|es| - 1];
      JoinedOpens(front, t);
      AccountOpens(e, t);
      var joined, account := Joined(front), AccountTokens(e);
      assert Joined(es) == joined + Separator(|es| == 1) + account;
      hide AccountTokens, Joined;
      assert t in Joined(es) <==> t in joined || HeadsEntry(t, e);
      assert forall p :: 0 <= p < |front| ==> front[p] == es[p];
    }
  }

  lemma RenderOpens(es: seq<Export>, state: seq<Account>, o: Options)
    requires Reports(es, state, o)
    ensures Opens(Render(es), state, o)
  {
    forall t: Token | t.Head?
      ensures t in Render(es) <==>
              exists i :: 0 <= i < |state| && InBounds(state[i].balance, o) && HeadsAccount(t, state[i])
    {
      JoinedOpens(es, t);
      assert t in Render(es) <==> t in Joined(es);
      hide *;
      SameHeads(es, state, o, t);
    }
  }

  lemma SameHeads(es: seq<Export>, state: seq<Account>, o: Options, t: Token)
    requires Reports(es, state, o)
    ensures (exists p :: 0 <= p < |es| && HeadsEntry(t, es[p])) <==>
            exists i :: 0 <= i < |state| && InBounds(state[i].balance, o) && HeadsAccount(t, state[i])
  {
    hide InBounds;
    var at :| ReportsAt(es, state, o, at);
    if p :| 0 <= p < |es| && HeadsEntry(t, es[p]) {
      assert at[p] in at && Shows(es[p], state[at[p]], o);
      assert InBounds(state[at[p]].balance, o) && HeadsAccount(t, state[at[p]]);
    }
    if i :| 0 <= i < |state| && InBounds(state[i].balance, o) && HeadsAccount(t, state[i]) {
      assert i in at;
      var p :| 0 <= p < |at| && at[p] == i;
      assert Shows(es[p], state[i], o);
      assert HeadsEntry(t, es[p]);
    }
  }

  /** The document reads back as a list that reports the state, and opens exactly the right entries. */
  lemma DocumentMeaning(state: seq<Account>, o: Options)
    ensures var out := Render(Selected(state, o));
            && Parse(out).Some? && Reports(Parse(out).value, state, o)
            && Opens(out, state, o)
  {
    hide InBounds, Shows, Render, Parse, Selected, Opens, ReportsAt;
    SelectedAtPositions(state, o);
    RenderReadsBack(Selected(state, o));
    RenderOpens(Selected(state, o), state, o);
  }

  const EXAMPLE_OPTIONS := Options(Some(10), None, true, true)
  const EXAMPLE_STATE := [Account(1, 50, 2, [], 0, None, []), Account(2, 5, 0, [], 0, None, []),
                          Account(3, 10, 4, [7, 8], 9, Some(6), [Slot(11, 12), Slot(13, 14)])]

  /** A whole document: the account below the bound is left out, commas stand between accounts and between slots. */
  lemma ExampleDocument()
    ensures Render(Selected(EXAMPLE_STATE, EXAMPLE_OPTIONS)) ==
            [OpenState] + ([Head(1, 50, 2), CloseAccount] + [Comma] +
                           [Head(3, 10, 4), CodeHash(9), Code([7, 8]), StorageRoot(6),
                            OpenStorage, Entry(Slot(11, 12)), Comma, Entry(Slot(13, 14)), CloseStorage, CloseAccount]) +
            [CloseState]
  {
    var first := Export(1, 50, 2, None, None, None, None);
    var second := Export(3, 10, 4, Some(9), Some([7, 8]), Some(6), Some([Slot(11, 12), Slot(13, 14)]));
    ExampleSelected(first, second);
    FirstAccount(first);
    SecondAccount(second);
    TwoAccounts(first, second);
    assert Render([first, second]) == [OpenState] + Joined([first, second]) + [CloseState];
    hide *;
  }

  lemma TwoAccounts(first: Export, second: Export)
    ensures Joined([first, second]) == AccountTokens(first) + [Comma] + AccountTokens(second)
  {
    hide AccountTokens;
    JoinedStep([], first);
    JoinedStep([first], second);
    assert [first] + [second] == [first, second] && Joined([]) == [] && [] + [first] == [first];
  }

  lemma ExampleSelected(first: Export, second: Export)
    requires first == Export(1, 50, 2, None, None, None, None)
    requires second == Export(3, 10, 4, Some(9), Some([7, 8]), Some(6), Some([Slot(11, 12), Slot(13, 14)]))
    ensures Selected(EXAMPLE_STATE, EXAMPLE_OPTIONS) == [first, second]
  {
    var o, a, b, c := EXAMPLE_OPTIONS, EXAMPLE_STATE[0], EXAMPLE_STATE[1], EXAMPLE_STATE[2];
    assert Selected([], o) == [];
    assert ExportOf(a, o) == first && ExportOf(c, o) == second;
    assert !Filtered(a, o) && Filtered(b, o) && !Filtered(c, o);
    SelectedStep([], a, o);
    SelectedStep([a], b, o);
    SelectedStep([a, b], c, o);
    hide Selected, ExportOf, Filtered;
    assert [] + [a] == [a] && [a] + [b] == [a, b] && [a, b] + [c] == EXAMPLE_STATE;
  }

  lemma FirstAccount(e: Export)
    requires e == Export(1, 50, 2, None, None, None, None)
    ensures AccountTokens(e) == [Head(1, 50, 2), CloseAccount]
  {
  }

  lemma SecondAccount(e: Export)
    requires e == Export(3, 10, 4, Some(9), Some([7, 8]), Some(6), Some([Slot(11, 12), Slot(13, 14)]))
    ensures AccountTokens(e) ==
            [Head(3, 10, 4), CodeHash(9), Code([7, 8]), StorageRoot(6), OpenStorage, Entry(Slot(11, 12)), Comma,
             Entry(Slot(13, 14)), CloseStorage, CloseAccount]
  {
    ExampleSlots();
    hide SlotTokens;
  }

  lemma ExampleSlots()
    ensures SlotTokens([Slot(11, 12), Slot(13, 14)]) == [Entry(Slot(11, 12)), Comma, Entry(Slot(13, 14))]
  {
    var two := [Slot(11, 12), Slot(13, 14)];
    assert two[..2] == two && two[..1] == [Slot(11, 12)] && two[..0] == [];
    SlotTokensStep(two, 1);
    SlotTokensStep(two, 0);
  }

  /** The selection is exactly the accounts within the bounds, each once and in trie order. */
  lemma {:induction false} SelectedMeaning(state: seq<Account>, o: Options)
    requires Trie(state)
    ensures forall e :: e in Selected(state, o) <==>
              exists i :: 0 <= i < |state| && InBounds(state[i].balance, o) && e == ExportOf(state[i], o)
    ensures forall i, j :: 0 <= i < j < |Selected(state, o)| ==>
              Selected(state, o)[i].address != Selected(state, o)[j].address
  {
    if state != [] {
      var front, a := state[..|state| - 1], state[|state| - 1];
      SelectedMeaning(front, o);
      assert Filtered(a, o) <==> !InBounds(a.balance, o);
      hide Filtered, InBounds, ExportOf;
      assert forall i :: 0 <= i < |front| ==> front[i] == state[i];
      forall e | e in Selected(front, o) ensures e.address != a.address {
        var i :| 0 <= i < |front| && InBounds(front[i].balance, o) && e == ExportOf(front[i], o);
        assert state[i].address != state[|state| - 1].address;
      }
      assert forall i :: 0 <= i < |Selected(front, o)| ==> Selected(front, o)[i] in Selected(front, o);
    }
  }
}
