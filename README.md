# User list and counter, modelled in Dafny

A model of the two pieces of state handling in a small React exercise
application.

- The **user-list engine** of the `App` component (`src/App.tsx`). It keeps
  the active users, the removed users, the search results and the search
  term. On mount it loads a feed of raw user records: it keeps the adults
  (`age >= 18`), projects each one to
  `{id, username, address, age, companyname}` with a random six-character id
  over `"ABCDEF123456"`, and sorts by age and then by company name. Removing
  a user moves it from the active list to the removed list, flagged
  `restore: true`. Restoring does the reverse and appends the user to the end
  of the active list. Searching lists the active users, then the removed
  users, whose user name contains the term regardless of case. The results
  are recomputed after every change to either list.
- The **counter reducer** of the application bar (`src/layout.tsx`). It is a
  pure function from a count and an action tag to the next count. It has five
  actions: increment, random increment by 1 to 10, increment to the next odd
  number, decrement clamped at zero, and reset. An unknown tag throws.

Files:

- `text.dfy` (module `Text`): the string built-ins the engine uses.
  `toLowerCase` is ASCII lower-casing. `indexOf` returns the first
  occurrence. `localeCompare` is replaced by lexicographic order on character
  codes.
- `sequences.dfy` (module `Sequences`): `filter` on sequences.
- `users.dfy` (module `Users`): the records, the id generator, the load
  pipeline, remove, restore and search as functions and lemmas. The class
  `UserList` holds the component's four state variables, and its methods are
  the component's handlers.
- `counter.dfy` (module `Counter`): the action enum, the reducer, and the
  runs of dispatches from `{count: 0}`.

Randomness is an input. Each loaded user's id comes from six integer draws in
[0, 12), which stand for `Math.floor(Math.random() * 12)`. The random
increment takes a roll in [0, 10), which stands for
`Math.floor(Math.random() * 10)`, and adds `roll + 1`.

The model follows the code where it differs from the exercise's own
instructions at the top of `src/App.tsx`:

- Decrement subtracts exactly 1 (`src/layout.tsx:93`). The instructions
  (`src/App.tsx:43`) ask for a decrease by a text-field amount.
- `removeUser` appends to the removed list even when the id is not active.
  It also removes every active entry with that id but appends only one copy.
- Loaded users carry no `restore` key. The search's `{ restore: true, ...user }`
  therefore sets the flag only where it is absent.

## Model

| member | source | states |
|---|---|---|
| `Text.Lower` | src/App.tsx:100-101 | `toLowerCase` keeps the length, maps each character through ASCII lower-casing and leaves no upper-case letter |
| `Text.LowerIdempotent` | src/App.tsx:100-101 | lower-casing an already lower-cased string changes nothing |
| `Text.IndexOf` | src/App.tsx:100-101 | `indexOf` is -1 exactly when the needle occurs at no position from `from` on; otherwise it is an occurrence with no earlier one |
| `Text.ContainsIff` | src/App.tsx:100-101 | `indexOf(...) >= 0` holds exactly when the needle occurs somewhere |
| `Text.StrLeTotal` | src/App.tsx:139 | any two company names are comparable |
| `Text.StrLeTrans` | src/App.tsx:139 | the company-name order is transitive |
| `Text.StrLeAntisym` | src/App.tsx:139 | two names ordered both ways are equal |
| `Sequences.Filter` | src/App.tsx:126 | `filter` keeps every element the predicate accepts, as often as in the input, and no other |
| `Sequences.FilterAppend` | src/App.tsx:59 | filtering a concatenation is concatenating the filtered parts, so kept elements keep their relative order |
| `Sequences.FilterAll` | src/App.tsx:65 | a filter that rejects no element returns its input unchanged |
| `Users.IdFromDraws` | src/App.tsx:109-116 | an id is 6 characters long and every character is in `"ABCDEF123456"` |
| `Users.RandomId` | src/App.tsx:110-116 | the loop builds exactly the id of its six draws, so it is 6 characters long, all from `"ABCDEF123456"` |
| `Users.AdultsCount` | src/App.tsx:126 | the age filter keeps as many records as there are adults, counted one by one, and only adults |
| `Users.UserLeTotal` | src/App.tsx:139 | the comparator relates any two users one way or the other |
| `Users.UserLeTrans` | src/App.tsx:139 | the comparator's order (age, then company name) is transitive |
| `Users.Insert` | src/App.tsx:138-139 | inserting into a sorted list gives a sorted list holding one more copy of the element |
| `Users.SortUsers` | src/App.tsx:138-139 | the sort returns a permutation of its input ordered by age ascending, ties by company name ascending |
| `Users.LoadUsers` | src/App.tsx:124-143 | the loaded active list is ordered by (age, company name) and is a permutation of the projected adult records |
| `Users.ReduceAllFrom` | src/App.tsx:129-135 | each projected user is an adult record of the feed with its username, address, age and company name, a valid id and no `restore` flag |
| `Users.LoadUsersContents` | src/App.tsx:126-135 | after load there are exactly as many active users as adult records, and each one is an adult record of the feed, projected |
| `Users.WithoutId` | src/App.tsx:59 | filtering by id drops every entry with that id and keeps every other entry as often as before |
| `Users.RemoveKeepsIdsDisjoint` | src/App.tsx:58-61 | removing any user keeps every id out of one of the two lists, and leaves only old active users active |
| `Users.RestoreKeepsIdsDisjoint` | src/App.tsx:64-67 | restoring any user keeps every id out of one of the two lists, and leaves only old removed users removed |
| `Users.TransitionsKeepAdults` | src/App.tsx:58-67 | moving a listed user either way never lets a minor into either list |
| `Users.RemoveThenRestore` | src/App.tsx:58-67 | remove then restore gives back the removed list, and puts the user last in the active list with the same fields and `restore` false, after the other users in their old order; a user whose id was unique is the only entry lost and regained |
| `Users.MatchesIff` | src/App.tsx:100-101 | a user matches exactly when the lower-cased term occurs in the lower-cased username |
| `Users.SearchResults` | src/App.tsx:96-106 | an empty term gives no results; every result matches the term; there are at most as many results as listed users |
| `Users.SearchWhenRestorable` | src/App.tsx:99-102 | with removed users flagged, a non-empty search is the matching active users in active order followed by the matching removed users in removed order |
| `Users.SearchExact` | src/App.tsx:99-102 | a non-empty search holds each matching user as often as it occurs in the two lists, and holds nothing else |
| `Users.UserList.Mount` | src/App.tsx:119-143 | after mount the active list is the loaded pipeline, the removed list and results are empty and the term is empty |
| `Users.UserList.SearchUsers` | src/App.tsx:96-106 | stores the term and the results recomputed from it, and leaves both lists unchanged |
| `Users.UserList.RemoveUser` | src/App.tsx:58-61 | active loses every entry with the user's id; removed gains the user with `restore` true at the end; the results are recomputed with the current term |
| `Users.UserList.RestoreUser` | src/App.tsx:64-67 | removed loses every entry with the user's id; active gains the user with `restore` false at the end, not re-sorted; the results are recomputed with the current term |
| `Counter.CounterReducer` | src/layout.tsx:81-100 | the reducer fails exactly on tags that are none of the five enum values; a non-negative count stays non-negative |
| `Counter.ValueInjective` | src/layout.tsx:63-69 | the five enum values are distinct strings |
| `Counter.IncrementAddsOne` | src/layout.tsx:84-85 | increment gives `count + 1` |
| `Counter.IncrementRandomInRange` | src/layout.tsx:87-88 | random increment adds an integer between 1 and 10 |
| `Counter.IncrementOddIsNextOdd` | src/layout.tsx:90-91 | increment-odd gives an odd number above the count with no odd number in between |
| `Counter.DecrementClampsAtZero` | src/layout.tsx:92-93 | decrement gives `count - 1` on a positive count and 0 otherwise, never a negative count |
| `Counter.ResetIsZero` | src/layout.tsx:95-96 | reset gives `{count: 0}` |
| `Counter.KnownActionsAccepted` | src/layout.tsx:83-99 | every enum action is handled, so a dispatch button never reaches the throwing default |
| `Counter.RunKeepsNonNegative` | src/layout.tsx:83-99 | any sequence of dispatches from a non-negative count ends at a non-negative count |
| `Counter.ReachableCountsNonNegative` | src/layout.tsx:104 | from the initial `{count: 0}`, every count reached along any sequence of dispatches is non-negative |

## Left out

- Rendering, styling, icons and the search box wiring of `src/App.tsx` and `src/layout.tsx` are left out. They are presentation.
- React's hook mechanics are left out. Each handler is a method that updates the state at once and then runs the search recomputation. Batching and asynchronous effects are not modelled. The brief render between mount and load, with an empty list, is not modelled either.
- `Math.random` is left out. The draws and the roll are inputs constrained to the ranges the code produces.
- `localeCompare` is replaced by lexicographic order on character codes, and `toLowerCase` by ASCII lower-casing. Locale and Unicode rules are not modelled.
- Ages and counts are unbounded integers. JavaScript numbers, which are floating point, are not modelled.
- The address is opaque text. The data feed `./data` is not part of this model, nor the user types `./types/user` or the raw records' other fields.
- Users.SortUsers: proves that the result is ordered and a permutation, but not that it is stable. JavaScript's sort is stable, and the model's insertion places each element before equal later ones, but no lemma states this.
- Users.UserList.RemoveUser: takes any user, as the handler does. The invariant that the lists hold only adults is proved for users taken from the lists (`Users.TransitionsKeepAdults`), not kept in the class invariant.
