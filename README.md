# FastList: a verified model of the pool-backed doubly-linked list

This project models the intrusive doubly-linked list of `htm/FastList.cpp`. It is written in Dafny and proves properties of the model.

The list has these parts:

- A `FastList` is a chain of `FastListTray` nodes. Each tray holds an opaque payload pointer and `prev`/`next` links.
- The list keeps `first`, `last`, a `count` and an embedded cursor `iterator_cur`.
- A `FastListIter` is a cursor bound to one list. It walks forward and backward, reports its position, inserts before its tray, and removes its tray.
- Trays come from a global object pool and go back to it when they are unlinked.

The model has three modules:

- `Wrappers` (`Wrappers.dfy`): the `Option` type. A C++ `nullptr` result becomes `None`.
- `Sequences` (`Sequences.dfy`):
  - `Erase` and `EraseFirst`, which delete every copy or only the first copy of a value from a sequence;
  - `Cut`, which deletes the element at one index;
  - the lemmas that give those functions their meaning.
- `FastLists` (`FastList.dfy`): the classes `Payload`, `Tray`, `FastList` and `FastListIter`, the pool's acquire operation, and `ListsAreIdentical`.

Every `FastList` carries two ghost sequences:

- `nodes`: its trays from head to tail;
- `contents`: the payload of each of those trays.

`FastList.Valid()` ties the concrete fields to `nodes`:

- `count == |nodes|`;
- `first` and `last` are the end trays, or null when the list is empty;
- the trays are distinct, so the chain has no cycle;
- tray i's `prev` and `next` are trays i-1 and i+1, and null at the ends;
- tray i carries payload i.

Every operation is then specified by what it does to `contents`. The methods update the fields and rewire the links in place, as the C++ does, and the specification is proved against that code.

A cursor's position is the ghost `Pos()`. It is the index of the cursor's tray in `nodes`, or `|nodes|` when the cursor is off-list.

Payloads are compared by identity only. `Payload` is an empty class, so two payloads are equal exactly when they are the same object. Insertions take a non-null `Payload`. `InsertAtStart` and `InsertAtEnd` check this with `assert(_new != nullptr)`. The cursor's `Insert` does not check it; see "## Left out". `Remove` and `IsInList` accept `Payload?`, because the C++ lets callers pass null there.

## Model

| member | source | states |
|---|---|---|
| FastLists.Tray.constructor | htm/FastList.cpp:10-13 | a new tray has a null payload and null links |
| FastLists.Tray.Initialize | htm/FastList.cpp:15-20 | the tray's payload and both links become null |
| FastLists.AcquireTray | htm/FastList.cpp:60-65 | the pool hands out a fresh tray that no list reaches, carrying the given payload and links |
| FastLists.FastList.ValidEnds | htm/FastList.cpp:107-124 | in a valid list, `first` is null iff `last` is null iff `count` is 0; the head's `prev` and the tail's `next` are null |
| FastLists.FastList.CountIsReachable | htm/FastList.cpp:196-214 | following k `next` links from `first` reaches tray k for every k below `count`, and exactly `count` links reach null |
| FastLists.FastList.SplicedIn | htm/FastList.cpp:381-397 | linking a fresh tray in at index k, with only its two new neighbours redirected to it, leaves a valid list |
| FastLists.FastList.CutOut | htm/FastList.cpp:413-424 | unlinking the tray at index k, with only its two neighbours redirected past it, leaves a valid list |
| FastLists.FastList.constructor | htm/FastList.cpp:22-25 | a new list is valid and empty, with no embedded cursor |
| FastLists.FastList.Initialize | htm/FastList.cpp:27-33 | count 0, null `first`/`last`/`iterator_cur`, empty contents |
| FastLists.FastList.Clear | htm/FastList.cpp:35-53 | walks and releases every tray; afterwards the list is valid and empty with `count == 0`, `first == last == null` and no embedded cursor |
| FastLists.FastList.InsertAtStart | htm/FastList.cpp:55-79 | `contents == [p] + old(contents)`, `count` grows by one, the new head tray is fresh, the old trays follow it, and the list stays valid |
| FastLists.FastList.InsertAtEnd | htm/FastList.cpp:81-105 | `contents == old(contents) + [p]`, `count` grows by one, the new tail tray is fresh, the old trays precede it, and the list stays valid |
| FastLists.FastList.RemoveFirst | htm/FastList.cpp:107-136 | on an empty list: returns None and changes nothing; otherwise: returns the old head payload and drops the head tray and payload, decrements `count`, keeps the list valid |
| FastLists.FastList.RemoveStep | htm/FastList.cpp:145-156 | one turn of the scan: when the cursor's payload is item, its tray is cut out at the cursor's index and the cursor stays at that index; otherwise contents and trays are unchanged and the cursor's index grows by one; `found` says which |
| FastLists.FastList.Remove | htm/FastList.cpp:138-158 | the cursor scan leaves `contents` equal to `Erase(old(contents), item)` when `multiple` is set, and `EraseFirst(old(contents), item)` otherwise; the trays left are exactly `Kept(old(nodes), old(contents), item, multiple)`, the trays of the kept payloads in their order; the list stays valid and `count` matches |
| FastLists.KeptAbsent | htm/FastList.cpp:138-158 | removing a payload no tray carries keeps every tray, so the list's trays are unchanged |
| FastLists.KeptOthers | htm/FastList.cpp:143-157 | every tray whose payload differs from item survives the removal, so a cursor resting on such a tray stays on the list |
| FastLists.KeptFirstAt | htm/FastList.cpp:143-151 | a single removal unlinks exactly the first tray carrying item and keeps all other trays, later copies of item included, in order |
| FastLists.FastList.TransferContentsTo | htm/FastList.cpp:160-175 | requires the destination to be empty; it receives the source's trays, contents, count and embedded cursor; the source is left valid and empty with null ends and cursor |
| FastLists.FastList.CopyContentsTo | htm/FastList.cpp:177-184 | `dst.contents == old(dst.contents) + contents` on fresh trays appended after dst's own; the source is not modified and both lists stay valid |
| FastLists.FastList.GetFirst | htm/FastList.cpp:186-189 | the head payload, or None for an empty list |
| FastLists.FastList.GetLast | htm/FastList.cpp:191-194 | the tail payload, or None for an empty list |
| FastLists.FastList.GetByIndex | htm/FastList.cpp:196-214 | `Some(contents[i])` for `0 <= i < |contents|`, None for `i >= |contents|`, and the head payload for a negative index because the walk never runs |
| FastLists.FastList.IsInList | htm/FastList.cpp:216-227 | true iff the payload occurs in `contents` |
| FastLists.ListsAreIdentical | htm/FastList.cpp:229-256 | true iff the two lists hold the same payloads in the same order |
| FastLists.FastListIter.constructor | htm/FastList.cpp:258-266 | the cursor is bound to the given list and starts off-list |
| FastLists.FastListIter.Get | htm/FastList.cpp:316-321 | None off-list, otherwise the payload at the cursor's index |
| FastLists.FastListIter.Reset | htm/FastList.cpp:268-276 | the cursor moves to index 0 (off-list on an empty list) and the head payload is returned |
| FastLists.FastListIter.ResetReverse | htm/FastList.cpp:278-286 | the cursor moves to the tail tray and the tail payload is returned; None on an empty list |
| FastLists.FastListIter.Prev | htm/FastList.cpp:288-300 | off-list stays off-list; from index 0 it leaves the list with no wrap-around; otherwise it moves to index Pos()-1; returns the new payload |
| FastLists.FastListIter.Advance | htm/FastList.cpp:302-314 | off-list stays off-list; otherwise Pos() grows by one, reaching off-list past the tail; returns the new payload |
| FastLists.FastListIter.Duplicate | htm/FastList.cpp:323-330 | requires both cursors to be bound to the same list; copies the other cursor's tray and returns its payload |
| FastLists.FastListIter.IsFirst | htm/FastList.cpp:332-337 | true iff the cursor is on the list at index 0 (false off-list) |
| FastLists.FastListIter.IsLast | htm/FastList.cpp:339-344 | true iff the cursor is on the list at its last index (false off-list) |
| FastLists.FastListIter.GetIndex | htm/FastList.cpp:346-369 | the walk from the head returns the cursor's 0-based index, or -1 when off-list; the fall-through after the walk is proved unreachable |
| FastLists.FastListIter.Insert | htm/FastList.cpp:371-401 | off-list: p is appended on a fresh tail tray after the unchanged old trays, as InsertAtEnd does; otherwise: p is placed immediately before the cursor's payload on a fresh tray, the old trays stay in order around it, the cursor stays on its tray (its index grows by one), and `count` grows by one; the list stays valid, so other cursors on it stay valid too |
| FastLists.FastListIter.Remove | htm/FastList.cpp:403-435 | off-list: nothing changes; otherwise the cursor's tray and payload are cut out at its index, `count` drops by one, and the cursor lands on the following tray (same index, off-list if it was the tail) |
| FastLists.FastListIter.SetList | htm/FastList.cpp:437-444 | rebinds the cursor to the given list and resets it to index 0 |
| Sequences.Erase | htm/FastList.cpp:138-158 | with `multiple` set, the result has no copy of x, every element comes from s, and it is no longer than s |
| Sequences.EraseFirst | htm/FastList.cpp:138-158 | with `multiple` clear, the result is one shorter when x occurs, and s itself when x is absent |
| Sequences.EraseAppend | htm/FastList.cpp:143-157 | erasing distributes over concatenation, so erasing keeps the relative order of the remaining payloads |
| Sequences.EraseAbsent | htm/FastList.cpp:138-158 | erasing an absent payload leaves the list unchanged |
| Sequences.EraseMultiset | htm/FastList.cpp:138-158 | `Remove(item, true)` drops every copy of item and no copy of any other payload |
| Sequences.EraseFirstAt | htm/FastList.cpp:138-158 | `Remove(item, false)` cuts out exactly the first index holding item and keeps everything else in order |
| Sequences.EraseFirstMultiset | htm/FastList.cpp:138-158 | `Remove(item, false)` drops one copy of item and nothing else |
| Sequences.CutAt | htm/FastList.cpp:403-435 | after the cursor removes index p, the elements before p keep their index and those after it move down by one |
| Sequences.CutIs | htm/FastList.cpp:403-435 | removal at the cursor equals the prefix before p joined to the suffix after p |
| Sequences.CutHead | htm/FastList.cpp:143-151 | removing the element the scan stands on, at index `|a|` of `a + s`, leaves `a + s[1..]` |
| Sequences.CutUndoesInsert | htm/FastList.cpp:371-435 | for a cursor on the list at index k (k < the length), `Insert` of x, then `Prev` back onto the new tray at index k, then `Remove` gives back the original sequence; cutting index k of the insertion also holds at k equal to the length, which an off-list cursor does not reach this way |

## Left out

- The pool's implementation (`MemManager`, its freelists and object reuse) is not part of this model. Acquiring a tray yields a fresh object. Releasing one drops it from the list's `nodes`, and nothing is claimed about its later reuse. The `Employ`/`Retire` hooks of `htm/MemObject.h` do nothing and are not modelled separately.
- AcquireTray: the tray's three field writes are folded into the acquire call. The callers make those writes straight after acquiring, before anything else reads the tray.
- FastLists.FastList.CopyContentsTo: it walks this list's trays directly instead of through a `FastListIter`. The steps are the same as `Reset`/`Advance`: start at `first` and follow `next` until null. Keeping iterator objects out of the proof keeps it small enough to check. It also requires `dst != this` and disjoint tray chains. Copying a non-empty list onto itself never terminates in the C++, because each appended tray is visited again. The requirement also excludes copying an empty list onto itself, which is harmless in the C++ because the loop never runs.
- The scan loop of `FastList.Remove` runs its body through a separate method, `RemoveStep`, where the C++ has those steps inline. The calls are the same: `Remove` on the cursor when its payload matches, `Advance` otherwise, and the loop returns after the first match when `multiple` is clear.
- FastLists.ListsAreIdentical: it walks the two chains directly instead of through two `FastListIter` objects, following the same `Reset`/`Get`/`Advance` steps.
- FastLists.FastListIter.Insert: takes a non-null payload, but the C++ (lines 371-401) asserts only that the cursor is bound. With the cursor on a tray, it links a null payload without a check. The loops of `Remove`, `CopyContentsTo`, `IsInList` and `ListsAreIdentical` would then stop early at that tray. The model keeps every linked payload non-null, so it does not capture that early stop.
- Null payloads inside a list: `InsertAtStart` and `InsertAtEnd` assert a non-null payload, and the cursor's `Insert` is restricted as above. So no tray in the model holds null. `Remove(nullptr, …)` and `IsInList(nullptr)` are modelled. The first removes nothing and the second returns false.
- FastLists.FastListIter.SetList: only the reference overload is modelled. The pointer overload's null branch (lines 446-453) would leave the cursor unbound, and the model has no unbound cursor.
- FastLists.FastListIter.constructor: the C++ constructors set only `list`. `iterator_cur`'s initial value comes from the header, which is not part of this model. The model starts the cursor off-list.
- The 32-bit `int` count and index are modelled as unbounded integers. No list here approaches 2^31 trays.
- Iterators left on a tray that another operation unlinked (dangling in C++) are excluded by the `Valid()` precondition: the cursor must be null or on one of the list's trays.
- FastLists.FastList.Initialize: like the C++, it forgets the trays a non-empty list held, without releasing them.
- `htm/main.cpp` (application shell) and `htm/Classifier.cpp` (a consumer with constant getters) hold no list logic and are not part of this model.
- The C++ `assert`s are modelled as preconditions. Behaviour with assertions compiled out, costs and threading are out of scope.
