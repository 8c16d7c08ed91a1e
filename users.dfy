/** The user-list engine of the `App` component (src/App.tsx): the load
    pipeline run once on mount, the random six-character ids, the search over
    active and removed users, and the remove/restore transitions between the
    two lists, with the search results recomputed after every change.

    Randomness is an input: `Math.floor(Math.random() * idChars.length)` is an
    integer draw in [0, 12), and each loaded user consumes six of them.
    `toLowerCase` is ASCII lower-casing and `localeCompare` is the
    lexicographic order `Text.StrLe`. */
module Users {
  import opened Text
  import opened Sequences

  datatype Option<T> = None | Some(value: T)

  /** A postal address; carried from the raw record to the reduced one and
      never inspected, so its structure is left abstract as text. */
  type Address = string

  /** The nested `company` object of a raw user; only its name is read. */
  datatype Company = Company(name: string)

  /** A raw record of the data feed (the fields the engine reads). */
  datatype User = User(username: string, address: Address, age: int, company: Company)

  /** `ReducedUser`. `restore` is absent (`None`) on loaded users; remove
      sets it to true and restore to false. A card whose `restore` is true
      shows the restore button, any other shows the remove button. */
  datatype ReducedUser = ReducedUser(
    id: string,
    username: string,
    address: Address,
    age: int,
    companyname: string,
    restore: Option<bool>)

  // ---------------------------------------------------------------------
  // Random ids
  // ---------------------------------------------------------------------

  const IdChars: string := "ABCDEF123456"

  /** Six draws, each a valid index into `IdChars`. */
  predicate ValidDraws(d: seq<int>)
  {
    |d| == 6 && forall k :: 0 <= k < 6 ==> 0 <= d[k] < |IdChars|
  }

  /** The id that six given draws produce. */
  function IdFromDraws(d: seq<int>): (id: string)
    requires ValidDraws(d)
    ensures |id| == 6
    ensures forall c :: c in id ==> c in IdChars
  {
    seq(6, k requires 0 <= k < 6 => IdChars[d[k]])
  }

  /** `randomId`: appends one drawn character of `IdChars` per iteration,
      six times. */
  method RandomId(draws: seq<int>) returns (id: string)
    requires ValidDraws(draws)
    ensures id == IdFromDraws(draws)
    ensures |id| == 6 && forall c :: c in id ==> c in IdChars
  {
    id := "";
    var i := 1;
    while i <= 6
      invariant 1 <= i <= 7
      invariant id == IdFromDraws(draws)[..i - 1]
    {
      id := id + [IdChars[draws[i - 1]]];
      i := i + 1;
    }
  }

  // ---------------------------------------------------------------------
  // Load pipeline
  // ---------------------------------------------------------------------

  predicate IsAdult(u: User)
  {
    u.age >= 18
  }

  /** `users.filter(user => user.age >= 18)`. */
  function Adults(feed: seq<User>): seq<User>
  {
    Filter(IsAdult, feed)
  }

  /** The number of adult records, counted one record at a time. */
  function CountAdults(feed: seq<User>): nat
  {
    if feed == [] then 0 else (if IsAdult(feed[0]) then 1 else 0) + CountAdults(feed[1..])
  }

  /** Filtering keeps exactly the adult records, each as often as in the feed. */
  lemma {:induction false} AdultsCount(feed: seq<User>)
    ensures |Adults(feed)| == CountAdults(feed)
    ensures forall u :: u in Adults(feed) ==> u.age >= 18
  {
    if feed != [] {
      assert feed == [feed[0]] + feed[1..];
      FilterAppend(IsAdult, [feed[0]], feed[1..]);
      AdultsCount(feed[1..]);
    }
  }

  /** The object literal built by the map: the five projected fields and a fresh id. */
  function Reduce(u: User, id: string): ReducedUser
  {
    ReducedUser(id, u.username, u.address, u.age, u.company.name, None)
  }

  predicate ValidDrawList(draws: seq<seq<int>>)
  {
    forall i :: 0 <= i < |draws| ==> ValidDraws(draws[i])
  }

  /** `filterUsers.map(...)`: the i-th adult gets the id of the i-th draws. */
  function ReduceAll(adults: seq<User>, draws: seq<seq<int>>): seq<ReducedUser>
    requires |draws| == |adults| && ValidDrawList(draws)
  {
    seq(|adults|, i requires 0 <= i < |adults| => Reduce(adults[i], IdFromDraws(draws[i])))
  }

  /** The sort comparator `a.age - b.age || a.companyname.localeCompare(b.companyname)`,
      read as "a may come before b". */
  predicate UserLe(a: ReducedUser, b: ReducedUser)
  {
    a.age < b.age || (a.age == b.age && StrLe(a.companyname, b.companyname))
  }

  lemma UserLeTotal(a: ReducedUser, b: ReducedUser)
    ensures UserLe(a, b) || UserLe(b, a)
  {
    StrLeTotal(a.companyname, b.companyname);
  }

  lemma UserLeTrans(a: ReducedUser, b: ReducedUser, c: ReducedUser)
    requires UserLe(a, b) && UserLe(b, c)
    ensures UserLe(a, c)
  {
    if a.age == b.age == c.age {
      StrLeTrans(a.companyname, b.companyname, c.companyname);
    }
  }

  /** Ascending by age, ties by company name. */
  predicate Sorted(s: seq<ReducedUser>)
  {
    forall i, j :: 0 <= i < j < |s| ==> UserLe(s[i], s[j])
  }

  /** Inserts `x` before the first element it may precede. */
  function Insert(x: ReducedUser, s: seq<ReducedUser>): (r: seq<ReducedUser>)
    requires Sorted(s)
    ensures Sorted(r)
    ensures multiset(r) == multiset(s) + multiset{x}
  {
    if s == [] then [x]
    else if UserLe(x, s[0]) then
      assert forall j :: 0 <= j < |s| ==> UserLe(x, s[j]) by {
        forall j | 0 <= j < |s| ensures UserLe(x, s[j]) {
          if j > 0 { UserLeTrans(x, s[0], s[j]); }
        }
      }
      [x] + s
    else
      UserLeTotal(x, s[0]);
      var t := Insert(x, s[1..]);
      assert s == [s[0]] + s[1..];
      assert forall j :: 0 <= j < |t| ==> UserLe(s[0], t[j]) by {
        forall j | 0 <= j < |t| ensures UserLe(s[0], t[j]) {
          assert t[j] in multiset(t);
          if t[j] != x {
            assert t[j] in multiset(s[1..]);
            var k :| 1 <= k < |s| && s[k] == t[j];
          }
        }
      }
      [s[0]] + t
  }

  /** The array sort of the load pipeline: the result is ordered by
      `UserLe` and is a permutation of the input. */
  function SortUsers(s: seq<ReducedUser>): (r: seq<ReducedUser>)
    ensures Sorted(r)
    ensures multiset(r) == multiset(s)
  {
    if s == [] then []
    else
      assert s == [s[0]] + s[1..];
      Insert(s[0], SortUsers(s[1..]))
  }

  /** The whole pipeline: filter the adults, project them with fresh ids,
      sort. The result is ordered and a permutation of the projected adults. */
  function LoadUsers(feed: seq<User>, draws: seq<seq<int>>): (r: seq<ReducedUser>)
    requires |draws| == |Adults(feed)| && ValidDrawList(draws)
    ensures Sorted(r)
    ensures multiset(r) == multiset(ReduceAll(Adults(feed), draws))
  {
    SortUsers(ReduceAll(Adults(feed), draws))
  }

  /** What a loaded user is made of: an adult record of the feed, projected,
      with a six-character id over `IdChars` and no `restore` flag. */
  predicate LoadedFrom(feed: seq<User>, v: ReducedUser)
  {
    && v.age >= 18
    && v.restore == None
    && |v.id| == 6 && (forall c :: c in v.id ==> c in IdChars)
    && exists u :: u in feed && IsAdult(u) && v == Reduce(u, v.id)
  }

  lemma ReduceAllFrom(feed: seq<User>, draws: seq<seq<int>>)
    requires |draws| == |Adults(feed)| && ValidDrawList(draws)
    ensures forall v :: v in ReduceAll(Adults(feed), draws) ==> LoadedFrom(feed, v)
  {
    var adults := Adults(feed);
    var reduced := ReduceAll(adults, draws);
    forall v | v in reduced ensures LoadedFrom(feed, v) {
      var i :| 0 <= i < |reduced| && reduced[i] == v;
      assert adults[i] in adults;
    }
  }

  /** After load there are as many active users as adult records in the
      feed, and every one of them was loaded from an adult record. */
  lemma LoadUsersContents(feed: seq<User>, draws: seq<seq<int>>)
    requires |draws| == |Adults(feed)| && ValidDrawList(draws)
    ensures |LoadUsers(feed, draws)| == CountAdults(feed)
    ensures forall v :: v in LoadUsers(feed, draws) ==> LoadedFrom(feed, v)
  {
    var r := LoadUsers(feed, draws);
    var reduced := ReduceAll(Adults(feed), draws);
    AdultsCount(feed);
    ReduceAllFrom(feed, draws);
    assert |r| == |reduced| by {
      assert |multiset(r)| == |multiset(reduced)|;
    }
    forall v | v in r ensures LoadedFrom(feed, v) {
      assert v in multiset(r);
      assert v in reduced;
    }
  }

  // ---------------------------------------------------------------------
  // Remove and restore
  // ---------------------------------------------------------------------

  /** `s.filter(u => u.id !== id)`: every entry with that id goes, the
      others stay, each as often as before. */
  function WithoutId(s: seq<ReducedUser>, id: string): (r: seq<ReducedUser>)
    ensures forall v :: v in r ==> v.id != id
    ensures forall v: ReducedUser :: v.id != id ==> multiset(r)[v] == multiset(s)[v]
    ensures |r| <= |s|
  {
    Filter((v: ReducedUser) => v.id != id, s)
  }

  /** `{ ...user, restore: true }`. */
  function AsRemoved(u: ReducedUser): ReducedUser
  {
    u.(restore := Some(true))
  }

  /** `{ ...user, restore: false }`. */
  function AsRestored(u: ReducedUser): ReducedUser
  {
    u.(restore := Some(false))
  }

  /** No id is both in the active list and in the removed list. */
  predicate IdsDisjoint(active: seq<ReducedUser>, removed: seq<ReducedUser>)
  {
    forall v, w :: v in active && w in removed ==> v.id != w.id
  }

  /** Removing keeps the two lists' ids apart, whatever user is removed. */
  lemma RemoveKeepsIdsDisjoint(active: seq<ReducedUser>, removed: seq<ReducedUser>, u: ReducedUser)
    requires IdsDisjoint(active, removed)
    ensures IdsDisjoint(WithoutId(active, u.id), removed + [AsRemoved(u)])
    ensures forall v :: v in WithoutId(active, u.id) ==> v in active
  {
    forall v | v in WithoutId(active, u.id) ensures v in active {
      assert v in multiset(WithoutId(active, u.id));
    }
  }

  /** Restoring keeps the two lists' ids apart, whatever user is restored. */
  lemma RestoreKeepsIdsDisjoint(active: seq<ReducedUser>, removed: seq<ReducedUser>, u: ReducedUser)
    requires IdsDisjoint(active, removed)
    ensures IdsDisjoint(active + [AsRestored(u)], WithoutId(removed, u.id))
    ensures forall v :: v in WithoutId(removed, u.id) ==> v in removed
  {
    forall v | v in WithoutId(removed, u.id) ensures v in removed {
      assert v in multiset(WithoutId(removed, u.id));
    }
  }

  predicate AllAdults(s: seq<ReducedUser>)
  {
    forall v :: v in s ==> v.age >= 18
  }

  /** A card's button moves a user that is in one of the lists, so no
      minor ever enters either list. */
  lemma TransitionsKeepAdults(active: seq<ReducedUser>, removed: seq<ReducedUser>, u: ReducedUser)
    requires AllAdults(active) && AllAdults(removed)
    requires u in active || u in removed
    ensures AllAdults(WithoutId(active, u.id)) && AllAdults(removed + [AsRemoved(u)])
    ensures AllAdults(active + [AsRestored(u)]) && AllAdults(WithoutId(removed, u.id))
  {
    RemoveKeepsIdsDisjoint(active, [], u);
    RestoreKeepsIdsDisjoint([], removed, u);
  }

  /** Removing a user and then restoring the removed copy: the removed list
      is as before, and the user is back as the last active entry, with the
      same fields and `restore` false, after the other active users in their
      old order. When the user was the only active entry with its id, the
      active list has lost exactly that one entry before the user is
      appended again. */
  lemma {:induction false} RemoveThenRestore(active: seq<ReducedUser>, removed: seq<ReducedUser>, u: ReducedUser)
    requires u in active
    requires IdsDisjoint(active, removed)
    ensures WithoutId(removed + [AsRemoved(u)], u.id) == removed
    ensures var back := WithoutId(active, u.id) + [AsRestored(AsRemoved(u))];
      && back[|back| - 1] == u.(restore := Some(false))
      && back[..|back| - 1] == WithoutId(active, u.id)
    ensures (forall v :: v in active && v.id == u.id ==> v == u) && multiset(active)[u] == 1 ==>
      multiset(WithoutId(active, u.id)) + multiset{u} == multiset(active)
  {
    var p := (v: ReducedUser) => v.id != u.id;
    FilterAppend(p, removed, [AsRemoved(u)]);
    FilterAll(p, removed);
    assert Filter(p, [AsRemoved(u)]) == [];
    if (forall v :: v in active && v.id == u.id ==> v == u) && multiset(active)[u] == 1 {
      var m := multiset(WithoutId(active, u.id)) + multiset{u};
      forall v ensures m[v] == multiset(active)[v] {
        if v.id == u.id && v != u {
          assert v !in active;
        }
      }
      assert m == multiset(active);
    }
  }

  // ---------------------------------------------------------------------
  // Search
  // ---------------------------------------------------------------------

  /** `user.username.toLowerCase().indexOf(term.toLowerCase()) >= 0`. */
  predicate Matches(term: string, u: ReducedUser)
  {
    Contains(Lower(u.username), Lower(term))
  }

  /** A user matches exactly when the lower-cased term occurs somewhere in
      the lower-cased username. */
  lemma MatchesIff(term: string, u: ReducedUser)
    ensures Matches(term, u) <==> exists k :: OccursAt(Lower(u.username), Lower(term), k)
  {
    ContainsIff(Lower(u.username), Lower(term));
  }

  function Matching(s: seq<ReducedUser>, term: string): seq<ReducedUser>
  {
    Filter((v: ReducedUser) => Matches(term, v), s)
  }

  /** `{ restore: true, ...user }`: the spread wins, so only an absent flag is set. */
  function MarkRestorable(u: ReducedUser): ReducedUser
  {
    if u.restore == None then u.(restore := Some(true)) else u
  }

  function MarkAllRestorable(s: seq<ReducedUser>): seq<ReducedUser>
  {
    seq(|s|, i requires 0 <= i < |s| => MarkRestorable(s[i]))
  }

  /** What `searchUsers(term)` stores as the search results. */
  function SearchResults(active: seq<ReducedUser>, removed: seq<ReducedUser>, term: string): (r: seq<ReducedUser>)
    ensures |term| == 0 ==> r == []
    ensures forall v :: v in r ==> Matches(term, v)
    ensures |r| <= |active| + |removed|
  {
    if |term| >= 1 then
      var m := Matching(removed, term);
      assert forall i :: 0 <= i < |m| ==> Matches(term, m[i]) by {
        forall i | 0 <= i < |m| ensures Matches(term, m[i]) {
          assert m[i] in m;
        }
      }
      Matching(active, term) + MarkAllRestorable(m)
    else []
  }

  predicate AllRestorable(s: seq<ReducedUser>)
  {
    forall v :: v in s ==> v.restore == Some(true)
  }

  /** On removed entries that already carry `restore: true` the map changes
      nothing: a non-empty search is the matching active users, in active
      order, followed by the matching removed users, in removed order. */
  lemma SearchWhenRestorable(active: seq<ReducedUser>, removed: seq<ReducedUser>, term: string)
    requires AllRestorable(removed)
    requires |term| >= 1
    ensures SearchResults(active, removed, term) == Matching(active, term) + Matching(removed, term)
  {
    var m := Matching(removed, term);
    assert forall i :: 0 <= i < |m| ==> m[i] in removed by {
      forall i | 0 <= i < |m| ensures m[i] in removed {
        assert m[i] in m;
      }
    }
    assert MarkAllRestorable(m) == m;
  }

  /** A non-empty search finds every matching user of either list, and
      nothing else: each result is a matching user of one of the lists,
      as often as it occurs in the two lists together. */
  lemma SearchExact(active: seq<ReducedUser>, removed: seq<ReducedUser>, term: string)
    requires AllRestorable(removed)
    requires |term| >= 1
    ensures forall v ::
      multiset(SearchResults(active, removed, term))[v] ==
      (if Matches(term, v) then multiset(active)[v] + multiset(removed)[v] else 0)
    ensures forall v :: v in SearchResults(active, removed, term) <==>
      (v in active || v in removed) && Matches(term, v)
  {
    SearchWhenRestorable(active, removed, term);
  }

  // ---------------------------------------------------------------------
  // The component state
  // ---------------------------------------------------------------------

  /** The state of the `App` component: `usersState`, `removedUsersState`,
      `searchUsersState` and `searchUsername`. */
  class UserList {
    var active: seq<ReducedUser>
    var removed: seq<ReducedUser>
    var results: seq<ReducedUser>
    var term: string

    /** What remove and restore keep true of the two lists. */
    ghost predicate ListsValid()
      reads this
    {
      AllRestorable(removed) && IdsDisjoint(active, removed)
    }

    /** The search results are never stale. */
    ghost predicate Valid()
      reads this
    {
      ListsValid() && results == SearchResults(active, removed, term)
    }

    /** Mounting the component: all state starts empty, the load effect
        stores the pipeline's result as the active users, and the search
        effect then recomputes the results for the empty term. */
    constructor Mount(feed: seq<User>, draws: seq<seq<int>>)
      requires |draws| == |Adults(feed)| && ValidDrawList(draws)
      ensures Valid()
      ensures active == LoadUsers(feed, draws)
      ensures removed == [] && results == [] && term == ""
    {
      active := [];
      removed := [];
      results := [];
      term := "";
      new;
      SearchUsers(term);
      active := LoadUsers(feed, draws);
      SearchUsers(term);
    }

    /** `searchUsers(username)`: stores the term and the recomputed results. */
    method SearchUsers(t: string)
      requires ListsValid()
      modifies this
      ensures Valid()
      ensures term == t && results == SearchResults(active, removed, t)
      ensures active == old(active) && removed == old(removed)
    {
      term := t;
      if |t| >= 1 {
        results := Matching(active, t) + MarkAllRestorable(Matching(removed, t));
      } else {
        results := [];
      }
    }

    /** `removeUser(user)`: every active entry with the user's id goes, one
        copy flagged for restoring is appended to the removed users (even
        when the id was not active), and the search is recomputed. */
    method RemoveUser(u: ReducedUser)
      requires Valid()
      modifies this
      ensures Valid()
      ensures active == WithoutId(old(active), u.id)
      ensures removed == old(removed) + [AsRemoved(u)]
      ensures term == old(term)
    {
      RemoveKeepsIdsDisjoint(active, removed, u);
      active := WithoutId(active, u.id);
      removed := removed + [AsRemoved(u)];
      SearchUsers(term);
    }

    /** `restoreUser(user)`: every removed entry with the user's id goes, one
        copy flagged as not removed is appended at the end of the active
        users (not re-sorted), and the search is recomputed. */
    method RestoreUser(u: ReducedUser)
      requires Valid()
      modifies this
      ensures Valid()
      ensures removed == WithoutId(old(removed), u.id)
      ensures active == old(active) + [AsRestored(u)]
      ensures term == old(term)
    {
      RestoreKeepsIdsDisjoint(active, removed, u);
      removed := WithoutId(removed, u.id);
      active := active + [AsRestored(u)];
      SearchUsers(term);
    }
  }
}
