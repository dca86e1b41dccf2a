/**
 Elevation profiles kept for the tab (frontend/src/elevationCache.ts), and the
 requests that fill it (`useElevationProfile` in frontend/src/placeUtils.ts).

 A JavaScript `Map` is the sequence of its entries in insertion order. The store
 of 40 is proved to be the end of an unbounded recency list, and over every
 interleaving of requests, late answers and scope changes a hit is an answer
 asked for in the current generation for exactly that key.
 */
module ProfileCache {
  import opened Common

  type Key = string

  /** What the server returns, credit included. */
  datatype Profile = Profile(samples: seq<(real, Option<real>)>, gainM: real, lossM: real, attribution: string)

  datatype Entry = Entry(key: Key, profile: Profile)

  const MAX_ENTRIES := 40

  // ---------------------------------------------------------------- the Map

  predicate HasKey(es: seq<Entry>, key: Key) {
    exists i :: 0 <= i < |es| && es[i].key == key
  }

  /** `Map.get`. */
  function Get(es: seq<Entry>, key: Key): Option<Profile> {
    if es == [] then None
    else if es[|es| - 1].key == key then Some(es[|es| - 1].profile)
    else Get(es[..|es| - 1], key)
  }

  /** `Map.delete`. */
  function Delete(es: seq<Entry>, key: Key): seq<Entry> {
    if es == [] then []
    else
      var rest := Delete(es[..|es| - 1], key);
      if es[|es| - 1].key == key then rest else rest + [es[|es| - 1]]
  }

  /** `Map.delete` then `Map.set`: the entry moves to the end. */
  function Renew(es: seq<Entry>, key: Key, profile: Profile): seq<Entry> {
    Delete(es, key) + [Entry(key, profile)]
  }

  ghost predicate OncePerKey(es: seq<Entry>) {
    forall i, j :: 0 <= i < j < |es| ==> es[i].key != es[j].key
  }

  lemma {:induction false} DeleteKeeps(es: seq<Entry>, key: Key)
    ensures |Delete(es, key)| <= |es| && !HasKey(Delete(es, key), key)
    ensures forall e :: e in Delete(es, key) <==> e in es && e.key != key
  {
    if es != [] {
      var init, last := es[..|es| - 1], es[|es| - 1];
      DeleteKeeps(init, key);
      assert es == init + [last];
      forall i | 0 <= i < |Delete(es, key)| ensures Delete(es, key)[i].key != key {
        if i < |Delete(init, key)| { assert Delete(init, key)[i] in Delete(init, key); }
      }
    }
  }

  lemma {:induction false} DeleteAbsent(es: seq<Entry>, key: Key)
    requires !HasKey(es, key)
    ensures Delete(es, key) == es
  {
    if es != [] {
      var init, last := es[..|es| - 1], es[|es| - 1];
      assert es == init + [last];
      forall i | 0 <= i < |init| ensures init[i].key != key { assert init[i] == es[i]; }
      DeleteAbsent(init, key);
    }
  }

  lemma {:induction false} DeleteOnce(es: seq<Entry>, key: Key, at: nat)
    requires OncePerKey(es) && at < |es| && es[at].key == key
    ensures Delete(es, key) == es[..at] + es[at + 1..]
  {
    var init, last := es[..|es| - 1], es[|es| - 1];
    assert es == init + [last];
    if at == |es| - 1 {
      DeleteAbsent(init, key);
      assert es[..at] + es[at + 1..] == init;
    } else {
      DeleteOnce(init, key, at);
      assert es[..at] + es[at + 1..] == init[..at] + init[at + 1..] + [last];
    }
  }

  lemma {:induction false} DeleteIsOnce(es: seq<Entry>, key: Key)
    requires OncePerKey(es)
    ensures OncePerKey(Delete(es, key))
  {
    if es != [] {
      var init, d := es[..|es| - 1], Delete(es[..|es| - 1], key);
      DeleteIsOnce(init, key);
      DeleteKeeps(init, key);
      forall i | 0 <= i < |d| ensures d[i].key != es[|es| - 1].key {
        assert d[i] in d;
        assert d[i] in init;
      }
    }
  }

  lemma RenewIsOnce(es: seq<Entry>, key: Key, profile: Profile)
    requires OncePerKey(es)
    ensures OncePerKey(Renew(es, key, profile))
  {
    DeleteIsOnce(es, key);
    DeleteKeeps(es, key);
  }

  lemma {:induction false} GetFinds(es: seq<Entry>, key: Key)
    ensures Get(es, key).Some? <==> HasKey(es, key)
    ensures Get(es, key).Some? ==> Entry(key, Get(es, key).value) in es
  {
    if es != [] {
      var init := es[..|es| - 1];
      GetFinds(init, key);
      assert es == init + [es[|es| - 1]];
      if HasKey(init, key) {
        var i :| 0 <= i < |init| && init[i].key == key;
        assert es[i].key == key;
      }
    }
  }

  // -------------------------------------------------------- the last forty

  function Last(es: seq<Entry>): (r: seq<Entry>)
    ensures |r| <= |es| && |r| <= MAX_ENTRIES && r == es[|es| - |r|..]
  {
    if |es| <= MAX_ENTRIES then es else es[|es| - MAX_ENTRIES..]
  }

  lemma LastIsOnce(es: seq<Entry>)
    requires OncePerKey(es)
    ensures OncePerKey(Last(es))
  {
  }

  lemma {:induction false} DeleteConcat(a: seq<Entry>, b: seq<Entry>, key: Key)
    ensures Delete(a + b, key) == Delete(a, key) + Delete(b, key)
  {
    if b == [] {
      assert a + b == a;
    } else {
      var init, last := b[..|b| - 1], b[|b| - 1];
      assert (a + b)[..|a + b| - 1] == a + init;
      DeleteConcat(a, init, key);
    }
  }

  lemma DeleteTakesOne(es: seq<Entry>, key: Key)
    requires OncePerKey(es)
    ensures |Delete(es, key)| >= |es| - 1
  {
    if HasKey(es, key) {
      var at: nat :| at < |es| && es[at].key == key;
      DeleteOnce(es, key, at);
    } else {
      DeleteAbsent(es, key);
    }
  }

  lemma LastOfEnd(front: seq<Entry>, es: seq<Entry>)
    requires |es| >= MAX_ENTRIES || front == []
    ensures Last(front + es) == Last(es)
  {
    if |es| >= MAX_ENTRIES {
      assert Last(es) == es[|es| - MAX_ENTRIES..];
    } else {
      assert front + es == es;
    }
  }

  /** Storing in the forty, and dropping the oldest while there are more, is storing in the whole list
      and keeping the last forty of that: an entry evicted before changes nothing. */
  lemma StoreRefines(all: seq<Entry>, key: Key, profile: Profile)
    requires OncePerKey(all)
    ensures Last(Renew(Last(all), key, profile)) == Last(Renew(all, key, profile))
  {
    var es := Last(all);
    var front := all[..|all| - |es|];
    assert all == front + es;
    LastIsOnce(all);
    DeleteConcat(front, es, key);
    DeleteTakesOne(es, key);
    assert Renew(all, key, profile) == Delete(front, key) + Renew(es, key, profile);
    LastOfEnd(Delete(front, key), Renew(es, key, profile));
  }

  /** A hit in the forty moves the same entry in both. */
  lemma HitRefines(all: seq<Entry>, key: Key, profile: Profile)
    requires OncePerKey(all) && Get(Last(all), key) == Some(profile)
    ensures Renew(Last(all), key, profile) == Last(Renew(all, key, profile))
  {
    StoreRefines(all, key, profile);
    LastIsOnce(all);
    GetFinds(Last(all), key);
    var at: nat :| at < |Last(all)| && Last(all)[at].key == key;
    DeleteOnce(Last(all), key, at);
  }

  /** The eviction loop: the oldest goes while there are more than forty. */
  method Evict(es: seq<Entry>) returns (kept: seq<Entry>)
    ensures kept == Last(es)
  {
    kept := es;
    while |kept| > MAX_ENTRIES
      invariant Last(kept) == Last(es)
    {
      LastOfEnd(kept[..1], kept[1..]);
      assert kept == kept[..1] + kept[1..];
      kept := kept[1..];
    }
  }

  // --------------------------------------------------------------- the module

  /** The module's variables. `all` is every entry of this generation, least recently used first; only
      the last forty of it are kept. */
  class Cache {
    var entries: seq<Entry>
    var scope: string
    var generation: nat
    ghost var all: seq<Entry>

    ghost predicate Valid()
      reads this
    {
      OncePerKey(all) && entries == Last(all)
    }

    constructor ()
      ensures Valid() && scope == "" && generation == 0 && all == []
    {
      entries, scope, generation, all := [], "", 0, [];
    }

    /** `scopeProfileCache`. */
    method Rescope(next: string)
      requires Valid()
      modifies this
      ensures Valid() && scope == next
      ensures next == old(scope) ==> generation == old(generation) && all == old(all)
      ensures next != old(scope) ==> generation == old(generation) + 1 && all == []
    {
      if next == scope { return; }
      scope := next;
      generation := generation + 1;
      entries, all := [], [];
    }

    /** `cachedProfile`. */
    method Read(key: Key) returns (hit: Option<Profile>)
      requires Valid()
      modifies this`entries, this`all
      ensures Valid() && hit == Get(Last(old(all)), key)
      ensures all == if hit.Some? then Renew(old(all), key, hit.value) else old(all)
    {
      hit := Get(entries, key);
      if hit.None? { return; }
      HitRefines(all, key, hit.value);
      RenewIsOnce(all, key, hit.value);
      all := Renew(all, key, hit.value);
      entries := Renew(entries, key, hit.value);
    }

    /** `cacheProfile`: dropped if the scope changed since it was asked for. */
    method Store(key: Key, profile: Profile, askedIn: nat)
      requires Valid()
      modifies this`entries, this`all
      ensures Valid()
      ensures all == if askedIn == generation then Renew(old(all), key, profile) else old(all)
    {
      if askedIn != generation { return; }
      StoreRefines(all, key, profile);
      RenewIsOnce(all, key, profile);
      all := Renew(all, key, profile);
      entries := Renew(entries, key, profile);
      entries := Evict(entries);
    }
  }

  // -------------------------------------------------------------- every run

  /** A request in the air: its answer is what the server reads for the caller when it was sent. */
  datatype Request = Request(key: Key, askedIn: nat, answer: Profile)

  /** The cache by its unbounded list, and every request sent. */
  datatype State = State(all: seq<Entry>, scope: string, generation: nat, sent: set<Request>, uses: seq<Key>)

  datatype Step =
    | Rescope(next: string)
    | Read(key: Key)
    | Ask(request: Request)
    | Arrive(request: Request)

  function Init(): State {
    State([], "", 0, {}, [])
  }

  ghost predicate Enabled(s: State, step: Step) {
    match step
    case Rescope(_) => true
    case Read(_) => true
    case Ask(r) => r.askedIn == s.generation
    case Arrive(r) => r in s.sent
  }

  /** As the class's methods do. An answer may arrive any time after it was asked for. `uses` is the
      keys stored or hit since the scope changed. */
  function Apply(s: State, step: Step): State {
    match step
    case Rescope(next) =>
      if next == s.scope then s else s.(scope := next, generation := s.generation + 1, all := [], uses := [])
    case Read(key) =>
      var hit := Get(Last(s.all), key);
      if hit.None? then s else s.(all := Renew(s.all, key, hit.value), uses := s.uses + [key])
    case Ask(r) => s.(sent := s.sent + {r})
    case Arrive(r) =>
      if r.askedIn != s.generation then s else s.(all := Renew(s.all, r.key, r.answer), uses := s.uses + [r.key])
  }

  /** Every entry is the answer to a request sent for its key in this generation. */
  ghost predicate AllAsked(s: State) {
    forall e :: e in s.all ==> Request(e.key, s.generation, e.profile) in s.sent
  }

  ghost predicate NoneFromLater(s: State) {
    forall r :: r in s.sent ==> r.askedIn <= s.generation
  }

  /** When `key` was last used. */
  function LastUse(uses: seq<Key>, key: Key): nat {
    if uses == [] then 0
    else if uses[|uses| - 1] == key then |uses|
    else LastUse(uses[..|uses| - 1], key)
  }

  /** The list holds what was used, in the order of last use. */
  ghost predicate InOrderOfUse(s: State) {
    (forall k :: HasKey(s.all, k) <==> k in s.uses) &&
    forall i, j :: 0 <= i < j < |s.all| ==> LastUse(s.uses, s.all[i].key) < LastUse(s.uses, s.all[j].key)
  }

  ghost predicate Inv(s: State) {
    OncePerKey(s.all) && AllAsked(s) && NoneFromLater(s) && InOrderOfUse(s)
  }

  lemma UseOne(uses: seq<Key>, key: Key, k: Key)
    ensures LastUse(uses + [key], k) == if k == key then |uses| + 1 else LastUse(uses, k)
  {
    assert (uses + [key])[..|uses|] == uses;
  }

  lemma {:induction false} LastUseIsPast(uses: seq<Key>, key: Key)
    ensures LastUse(uses, key) <= |uses|
  {
    if uses != [] && uses[|uses| - 1] != key { LastUseIsPast(uses[..|uses| - 1], key); }
  }

  lemma {:induction false} DeleteKeepsOrder(es: seq<Entry>, key: Key, uses: seq<Key>)
    requires forall i, j :: 0 <= i < j < |es| ==> LastUse(uses, es[i].key) < LastUse(uses, es[j].key)
    ensures var d := Delete(es, key);
            forall i, j :: 0 <= i < j < |d| ==> LastUse(uses, d[i].key) < LastUse(uses, d[j].key)
  {
    if es != [] {
      var init, last := es[..|es| - 1], es[|es| - 1];
      DeleteKeepsOrder(init, key, uses);
      DeleteKeeps(init, key);
      var d := Delete(es, key);
      forall i, j | 0 <= i < j < |d| ensures LastUse(uses, d[i].key) < LastUse(uses, d[j].key) {
        if j == |Delete(init, key)| {
          assert d[i] in Delete(init, key);
          assert d[i] in init;
        }
      }
    }
  }

  /** Using a key moves it to the end of the order. */
  lemma RenewOrders(s: State, key: Key, profile: Profile)
    requires InOrderOfUse(s)
    ensures InOrderOfUse(s.(all := Renew(s.all, key, profile), uses := s.uses + [key]))
  {
    var d, all, uses := Delete(s.all, key), Renew(s.all, key, profile), s.uses + [key];
    DeleteKeeps(s.all, key);
    DeleteKeepsOrder(s.all, key, s.uses);
    forall i, j | 0 <= i < j < |all| ensures LastUse(uses, all[i].key) < LastUse(uses, all[j].key) {
      assert d[i] in d;
      UseOne(s.uses, key, all[i].key);
      UseOne(s.uses, key, all[j].key);
      LastUseIsPast(s.uses, all[i].key);
      if j < |d| { assert d[j] in d; }
    }
    forall k ensures HasKey(all, k) <==> k in uses {
      HasKeyIs(all, k);
      HasKeyIs(s.all, k);
    }
  }

  lemma HasKeyIs(es: seq<Entry>, key: Key)
    ensures HasKey(es, key) <==> exists e :: e in es && e.key == key
  {
    if HasKey(es, key) {
      var i :| 0 <= i < |es| && es[i].key == key;
      assert es[i] in es;
    }
  }

  lemma StepKeepsInv(s: State, step: Step)
    requires Inv(s) && Enabled(s, step)
    ensures Inv(Apply(s, step))
  {
    match step
    case Rescope(_) =>
    case Ask(_) =>
    case Read(key) =>
      var hit := Get(Last(s.all), key);
      if hit.Some? {
        GetFinds(Last(s.all), key);
        RenewIsOnce(s.all, key, hit.value);
        DeleteKeeps(s.all, key);
        RenewOrders(s, key, hit.value);
      }
    case Arrive(r) =>
      RenewIsOnce(s.all, r.key, r.answer);
      DeleteKeeps(s.all, r.key);
      RenewOrders(s, r.key, r.answer);
  }

  ghost predicate Runs(states: seq<State>, steps: seq<Step>) {
    |states| == |steps| + 1 && states[0] == Init() &&
    forall i :: 0 <= i < |steps| ==> Enabled(states[i], steps[i]) && states[i + 1] == Apply(states[i], steps[i])
  }

  lemma {:induction false} RunKeepsInv(states: seq<State>, steps: seq<Step>, n: nat)
    requires Runs(states, steps) && n <= |steps|
    ensures Inv(states[n])
  {
    if n > 0 {
      RunKeepsInv(states, steps, n - 1);
      StepKeepsInv(states[n - 1], steps[n - 1]);
    }
  }

  /** At any point of any run, a hit is an answer asked for in the current generation for exactly that
      key; and there is a hit exactly for the forty keys used last. */
  lemma HitIsCurrent(states: seq<State>, steps: seq<Step>, n: nat, key: Key)
    requires Runs(states, steps) && n <= |steps|
    ensures var s := states[n];
            var hit := Get(Last(s.all), key);
            (hit.Some? ==> Request(key, s.generation, hit.value) in s.sent) &&
            (hit.Some? <==> key in s.uses && Newer(s, key) < MAX_ENTRIES)
  {
    var s := states[n];
    RunKeepsInv(states, steps, n);
    GetFinds(Last(s.all), key);
    NewerIsAfter(s, key);
  }

  /** How many other keys were used since `key` was. */
  ghost function Newer(s: State, key: Key): nat {
    |set k | k in s.uses && LastUse(s.uses, k) > LastUse(s.uses, key)|
  }

  ghost function KeysFrom(es: seq<Entry>, from: nat): set<Key>
    requires from <= |es|
  {
    set i | from <= i < |es| :: es[i].key
  }

  lemma {:induction false} KeysAreMany(es: seq<Entry>, from: nat)
    requires OncePerKey(es) && from <= |es|
    ensures |KeysFrom(es, from)| == |es| - from
    decreases |es| - from
  {
    if from < |es| {
      KeysAreMany(es, from + 1);
      assert KeysFrom(es, from) == KeysFrom(es, from + 1) + {es[from].key};
    } else {
      assert KeysFrom(es, from) == {};
    }
  }

  lemma NewerIsLater(s: State, at: nat, k: Key)
    requires InOrderOfUse(s) && at < |s.all|
    ensures k in s.uses && LastUse(s.uses, k) > LastUse(s.uses, s.all[at].key) <==> k in KeysFrom(s.all, at + 1)
  {
    if HasKey(s.all, k) {
      var i :| 0 <= i < |s.all| && s.all[i].key == k;
      if i > at { assert k in KeysFrom(s.all, at + 1); }
      if k in KeysFrom(s.all, at + 1) {
        var j :| at + 1 <= j < |s.all| && s.all[j].key == k;
        assert LastUse(s.uses, s.all[at].key) < LastUse(s.uses, s.all[j].key);
      }
    } else if k in KeysFrom(s.all, at + 1) {
      assert false;
    }
  }

  lemma NewerCount(s: State, at: nat)
    requires Inv(s) && at < |s.all|
    ensures Newer(s, s.all[at].key) == |s.all| - (at + 1)
  {
    var newer := set k | k in s.uses && LastUse(s.uses, k) > LastUse(s.uses, s.all[at].key);
    forall k ensures k in newer <==> k in KeysFrom(s.all, at + 1) { NewerIsLater(s, at, k); }
    assert newer == KeysFrom(s.all, at + 1);
    KeysAreMany(s.all, at + 1);
  }

  lemma NewerIsAfter(s: State, key: Key)
    requires Inv(s)
    ensures HasKey(Last(s.all), key) <==> key in s.uses && Newer(s, key) < MAX_ENTRIES
  {
    if HasKey(s.all, key) {
      var at: nat :| at < |s.all| && s.all[at].key == key;
      NewerCount(s, at);
      InLast(s.all, key, at);
    } else {
      LastHasNoMore(s.all, key);
    }
  }

  lemma LastHasNoMore(es: seq<Entry>, key: Key)
    ensures HasKey(Last(es), key) ==> HasKey(es, key)
  {
    if HasKey(Last(es), key) {
      var i :| 0 <= i < |Last(es)| && Last(es)[i].key == key;
      assert es[|es| - |Last(es)| + i].key == key;
    }
  }

  lemma InLast(es: seq<Entry>, key: Key, at: nat)
    requires OncePerKey(es) && at < |es| && es[at].key == key
    ensures HasKey(Last(es), key) <==> |es| - (at + 1) < MAX_ENTRIES
  {
    var cut := |es| - |Last(es)|;
    if at >= cut { assert Last(es)[at - cut].key == key; }
    if HasKey(Last(es), key) {
      var i :| 0 <= i < |Last(es)| && Last(es)[i].key == key;
      assert es[cut + i].key == key;
    }
  }
}
