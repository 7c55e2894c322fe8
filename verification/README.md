# Student records: a verified model

This project models the data-structure and algorithm layer of a small
student-records application, and proves properties of that model. The layer
has the following parts:

- **Containers.** A singly linked list holds a student's subject codes. A
  stack holds the grade history. A queue holds pending attendance entries.
- **Search tree.** An unbalanced binary search tree indexes students by ID.
- **Sorting and search.** Stable merge sort, three-way quicksort, and a
  binary search that returns the leftmost match.
- **Student record.** The mutators for enrolment, grades, grade undo and
  attendance.
- **Student registry.** Keeps the student list and the ID index in step. Drains
  the attendance queue. Produces the sorted listings and the name search.
  Picks class representatives per department. Keeps a catalog of subject time
  slots and plans a timetable with the weighted-interval-scheduling dynamic
  program.
- **Time text.** The GUI's two helpers that convert `HH:MM` text to and from
  minutes.

Parts of the source that change state in place are Dafny classes. Each class
carries a ghost picture of its state and has `modifies` clauses:

- linked-list nodes relinked by `append`/`remove`;
- stack and queue on `seq` fields;
- tree nodes rewritten by the recursive insert and delete;
- the student record;
- the registry.

Each class method is proved against a function on values:

- `TreeModel.Insert`/`Delete` for the tree;
- `Sorting.Merge`/`MergeSort` for the merge loop;
- `Timetable.Best`/`Reconstruct` for the dynamic program's arrays;
- `Roster.Accepted` for draining the attendance queue;
- `Representatives.Representatives` for the representative choice.

The properties the application relies on are lemmas about those functions:
- ordering, permutation and stability of the sorts;
- the search-tree invariant and its map view;
- first-in-first-out application of attendance;
- optimality of the timetable;
- both round trips of the time conversion.

Source errors (`ValueError`, `IndexError`) become `Fail`/`Err`/`None` results
that name the reason. Strings are sequences of characters. Python's `<` on
strings is the lexicographic order `Text.Less`. `strip()` removes the
characters Python's `str.isspace` accepts, and `upper()`/`lower()` map ASCII
letters.

## Model

| member | source | states |
|---|---|---|
| LinkedList.SinglyLinkedList.constructor | student_records.py:15-20 | The new list holds exactly the given values, in order. |
| LinkedList.SinglyLinkedList.Len | student_records.py:21 | The cached size equals the number of values. |
| LinkedList.SinglyLinkedList.Append | student_records.py:32-39 | Walks to the tail and links a new node. The contents become the old contents followed by the value. |
| LinkedList.SinglyLinkedList.Contains | student_records.py:22-30 | The walk reports true exactly when the value is in the list. |
| LinkedList.SinglyLinkedList.ToSeq | student_records.py:22-26 | Iteration yields the values in link order. |
| LinkedList.SinglyLinkedList.Remove | student_records.py:40-48 | Returns whether the value was present. Unlinks exactly its first occurrence, and the size drops with it. |
| Seqs.RemoveFirstDistinct | student_records.py:40-48 | On a duplicate-free list, removing the first occurrence leaves a duplicate-free list without that value. |
| Containers.Stack.Push | student_records.py:54 | The item goes on top. |
| Containers.Stack.Pop | student_records.py:55-57 | An empty stack gives `None` (the source's `IndexError`) and stays empty. Otherwise returns the top item and removes it. |
| Containers.Stack.Peek | student_records.py:59-61 | Returns the top item without change. `None` exactly when the stack is empty. |
| Containers.Stack.Len | student_records.py:63 | The number of items. |
| Containers.Queue.Enqueue | student_records.py:68 | The item joins at the back. |
| Containers.Queue.Dequeue | student_records.py:69-71 | An empty queue gives `None`. Otherwise returns the front item and removes it. |
| Containers.Queue.Peek | student_records.py:72-74 | Returns the front item. `None` exactly when the queue is empty. |
| Containers.Queue.Len | student_records.py:76 | The number of items. |
| TreeModel.InsertFind | student_records.py:89-97 | After inserting `k`, a search for `k` finds the new value. Every other key finds what it found before. |
| TreeModel.InsertKeys | student_records.py:89-97 | Inserting adds exactly `k` to the key set. Re-inserting an existing key keeps the key set, and so the size. |
| TreeModel.InsertBST | student_records.py:89-97 | Insert keeps the search-tree ordering. |
| TreeModel.FindKeys | student_records.py:98-104 | In a search tree, a search finds a value exactly for the keys in the tree. |
| TreeModel.MinIsLeast | student_records.py:106-108 | The leftmost node holds the least key and its value. |
| TreeModel.DeleteFind | student_records.py:109-120 | After deleting `k`, a search for `k` finds nothing and every other key finds what it found before. This includes the two-child case that copies up the in-order successor. |
| TreeModel.DeleteKeys | student_records.py:109-120 | Deleting removes exactly `k` from the key set. Deleting an absent key changes nothing. |
| TreeModel.DeleteBST | student_records.py:109-120 | Delete keeps the search-tree ordering. |
| TreeModel.InOrderAscending | student_records.py:122-126 | The in-order listing has strictly ascending keys. |
| TreeModel.InOrderFind | student_records.py:122-126 | Every pair the in-order listing yields is what a search for its key returns. |
| TreeModel.InOrderKeys | student_records.py:122-126 | The in-order listing holds exactly the keys of the tree. |
| TreeModel.InOrderSize | student_records.py:122-128 | The in-order listing has as many entries as the recursive node count. |
| TreeModel.SizeIsKeyCount | student_records.py:127-128 | In a search tree, the node count is the number of distinct keys. |
| TreeModel.MapOfKeys | student_records.py:122-126 | The map a tree stores has exactly the tree's keys. |
| TreeModel.MapOfFind | student_records.py:98-104 | In a search tree, a search returns the stored map's value for a present key and `None` for any other. |
| TreeModel.RepresentsFind | student_records.py:98-104 | A tree representing a map holds the map's keys, and a search answers with the map's value or `None`. |
| TreeModel.FindRepresents | student_records.py:98-104 | Conversely, a search tree whose every search agrees with a map represents that map. |
| TreeModel.InsertRepresents | student_records.py:89-97 | Inserting `k ↦ v` into a tree representing `m` gives a tree representing `m` updated at `k`. |
| TreeModel.DeleteRepresents | student_records.py:109-120 | Deleting `k` from a tree representing `m` gives a tree representing `m` without `k`. |
| TreeModel.InOrderRepresents | student_records.py:122-126 | The in-order listing has one entry per key of the represented map, in strictly ascending key order, each with its value. |
| SearchTree.Ins | student_records.py:90-96 | The recursive `_ins` rewrites the nodes in place. The tree they form becomes `TreeModel.Insert` of the old tree. |
| SearchTree.InsLeft | student_records.py:92 | `n.left = _ins(n.left, k, v)` for a key below the node's: the node's tree becomes the insert of its old tree. |
| SearchTree.InsRight | student_records.py:93 | `n.right = _ins(n.right, k, v)` for a key above the node's: the node's tree becomes the insert of its old tree. |
| SearchTree.InsertAtRoot | student_records.py:96 | Re-rooting at `_ins(root, k, v)` gives a valid tree representing the old map updated at `k`. |
| SearchTree.MinNode | student_records.py:106-108 | The `_min` walk reaches the leftmost node of the tree. |
| SearchTree.Del | student_records.py:109-120 | The recursive `_del` rewrites the nodes in place. The tree they form becomes `TreeModel.Delete` of the old tree. |
| SearchTree.DelLeft | student_records.py:111 | `n.left = _del(n.left, k)` for a key below the node's: the node's tree becomes the delete of its old tree. |
| SearchTree.DelRight | student_records.py:112 | `n.right = _del(n.right, k)` for a key above the node's: the node's tree becomes the delete of its old tree. |
| SearchTree.DelFromRight | student_records.py:118 | Deleting any key from the right subtree leaves the node's left subtree, key and value as they were. |
| SearchTree.DelSuccessor | student_records.py:116-119 | Copies up the successor and deletes it from the right subtree. This deletes the node's own key. |
| SearchTree.SearchFrom | student_records.py:98-104 | The search loop returns what `TreeModel.Find` gives. |
| SearchTree.ComputeSize | student_records.py:127-128 | `_compute_size` is the node count of the modelled tree. |
| SearchTree.InOrderFrom | student_records.py:122-126 | The recursive generator yields `TreeModel.InOrder` of the modelled tree. |
| SearchTree.BinarySearchTree.Insert | student_records.py:89-97 | The represented map gains `k ↦ v`, overwriting any old value. The ordering and the recomputed size stay consistent. |
| SearchTree.BinarySearchTree.Delete | student_records.py:105-121 | The represented map loses `k`. Deleting an absent key leaves it unchanged. |
| SearchTree.BinarySearchTree.Search | student_records.py:98-104 | Returns the value stored under `k`, or `None` when `k` is not stored. |
| SearchTree.BinarySearchTree.Len | student_records.py:88 | The cached size is the number of stored keys. |
| SearchTree.BinarySearchTree.InOrderPairs | student_records.py:122-126 | The listing has one entry per stored key, with strictly ascending keys, each paired with its stored value. |
| Sorting.MergeLists | student_records.py:139-144 | The index loop of `_merge` produces exactly `Merge`: ties are taken from the left, because the comparison is `<=`. |
| Sorting.MergePermutes | student_records.py:139-144 | Merging yields exactly the elements of both inputs. |
| Sorting.MergeSorted | student_records.py:139-144 | Merging two sorted inputs gives a sorted output. |
| Sorting.MergeStable | student_records.py:139-144 | For each key, the merged elements with that key are those of the left input, then those of the right, in input order. |
| Sorting.MergeSortPermutes | student_records.py:131-137 | `mergesort` returns a permutation of its input. |
| Sorting.MergeSortSorted | student_records.py:131-137 | `mergesort` output is non-decreasing by key. |
| Sorting.MergeSortStable | student_records.py:131-137 | `mergesort` keeps the input order of elements with equal keys. |
| Sorting.MergeSortCorrect | student_records.py:131-144 | Sorted, a permutation and stable, together. |
| Sorting.OnlyRunHasKey | student_records.py:284-290 | If a key occurs exactly at one run of indices, the elements with that key are that run. |
| Sorting.PartitionMultiset | student_records.py:149-152 | The less/equal/greater comprehensions split the input into three parts that together hold every element. |
| Sorting.QuickSortCorrect | student_records.py:146-153 | `quicksort` returns a permutation of its input that is non-decreasing by key. |
| Sorting.QuickSortJoin | student_records.py:153 | The sorted lower part, then the pivot's equals, then the sorted upper part is sorted. |
| Sorting.BinarySearch | student_records.py:155-165 | On input sorted by key, returns the smallest index holding the target, or -1 when no element has it. |
| Sorting.RunIsWithKey | student_records.py:284-290 | In a sorted list, a maximal run of the target key starting at the first hit is every element with that key. |
| Text.TrimStartSpec | student_records.py:190 | Stripping the front drops a prefix, never more than the text. |
| Text.TrimEndSpec | student_records.py:190 | Stripping the back drops a suffix. |
| Text.StripIdempotent | student_records.py:190 | A stripped text has no whitespace at either end, and stripping again changes nothing. |
| Text.UpperSpec | student_records.py:190 | `upper()` maps each character and keeps the length. |
| Text.LowerSpec | student_records.py:276 | `lower()` maps each character and keeps the length. |
| Text.NormalizeShape | student_records.py:190 | A normalised subject code has no outer whitespace and no lower-case letter. |
| Text.NormalizeIdempotent | student_records.py:190 | Normalising a normalised code changes nothing. |
| Text.LessIsStrictTotalOrder | student_records.py:91-93 | Python's string `<` is irreflexive, transitive and total. The search tree and the name sorts rely on this. |
| Students.Student.constructor | student_records.py:175-188 | A student with years 1..4 starts with no subjects, grades, history or attendance. |
| Students.Student.Create | student_records.py:186-188 | A year outside 1..4 is rejected with `YearOutOfRange`. Any other year gives a fresh valid student with the given fields. |
| Students.Student.IsEnrolled | student_records.py:198 | Membership of the code in the enrolled subjects. |
| Students.Student.EnrollSubject | student_records.py:189-192 | Normalises the code. A code already enrolled is rejected and nothing changes. Otherwise the code is appended. The list stays duplicate-free and normalised. |
| Students.Student.DropSubject | student_records.py:193-195 | Normalises the code. An absent code is rejected. Otherwise exactly its occurrence is removed. |
| Students.Student.AddGrade | student_records.py:196-201 | A code not enrolled, or a score outside 0..100, is rejected and nothing changes. Otherwise the score is appended to the subject's list and `(code, score)` is pushed on the history. |
| Students.Student.UndoLastGrade | student_records.py:202-206 | An empty history is rejected. Otherwise pops one entry and drops its subject's last score only when that score is the popped one. Nothing else changes. |
| Students.Student.RecordAttendance | student_records.py:207-210 | A subject not enrolled is rejected. Otherwise exactly one record with the normalised code is appended. |
| Students.Student.RemoveKeepsWellFormed | student_records.py:193-195 | Dropping a code keeps the subject list duplicate-free and normalised, and removes the code. |
| Students.Undone | student_records.py:204-206 | Undoing touches only the popped entry's subject. |
| Students.UndoAfterAdd | student_records.py:196-206 | An `add_grade` followed by `undo_last_grade` gives back the subject's score list it started from. A subject that had no scores keeps an empty list under its code, as `setdefault` leaves it; every other subject is untouched. |
| Students.AttendanceCounts | student_records.py:218-220 | The present count never exceeds the considered count, and that never exceeds the log's length. |
| Students.AttendanceRate | student_records.py:217-221 | A rate in 0..100: zero with no records, otherwise present over considered as a percentage. |
| Students.Percent | student_records.py:221 | The percentage times the total is 100 times the present count. |
| Students.AttendanceCountsAppend | student_records.py:207-221 | One more record adds one to the total, and one to the present count when present. |
| Students.CountsSnoc | student_records.py:218-220 | One more record counts only when it matches the subject filter, adding one to the total and one more when present. |
| Students.AttendanceCountsFilter | student_records.py:218 | The per-subject rate counts exactly the records the comprehension keeps for `subject.upper()`. |
| Roster.IdMapSnoc | student_records.py:250-251 | Appending a student with a new ID keeps IDs distinct and adds exactly that ID to the index. |
| Roster.IdMapSize | student_records.py:247-251 | With distinct IDs, the index has one entry per listed student. |
| Roster.WithoutMembers | student_records.py:256 | The comprehension keeps exactly the students whose ID differs. |
| Roster.WithoutDistinct | student_records.py:256 | Filtering out an ID keeps the remaining IDs distinct. |
| Roster.WithoutSpec | student_records.py:254-257 | Removing an ID from the list removes exactly that ID from the index, and IDs stay distinct. |
| Roster.AcceptedFifo | student_records.py:260-273 | Processing `a` then `b` appends `a`'s records, then `b`'s. |
| Roster.AcceptedCountBound | student_records.py:260-273 | The count never exceeds the number of entries. It equals it exactly when every entry names a known student enrolled in its subject. |
| Roster.ByNameCorrect | student_records.py:275-277 | `sorted_by_name` is a permutation, sorted by lower-cased name and stable. |
| Roster.SortedReversed | student_records.py:283 | A list sorted ascending, read backwards, is sorted descending. |
| Roster.ByGpaCorrect | student_records.py:280-283 | A permutation. Ascending: sorted and stable. Descending: sorted descending with each run of equal keys in reverse list order. |
| Roster.SlotRoundTrip | student_records.py:351-356 | A stored slot is found under any spelling that normalises the same way. Other codes keep their slots. A valid slot keeps the catalog valid. |
| Roster.CatalogItemsSpec | student_records.py:364-367 | The items are exactly the catalog slots of the enrolled codes. |
| Roster.CatalogItemsShape | student_records.py:364-368 | With valid slots every item ends after it starts. There are no items exactly when no enrolled code is catalogued. |
| Roster.PlanSpec | student_records.py:359-400 | The plan holds only enrolled, catalogued codes. Each chosen slot ends no later than the next one starts. |
| Roster.PlanAt | student_records.py:393-399 | Each planned code is the code of a reconstructed slot, with its catalog entry. |
| Roster.PlanOptimal | student_records.py:359-400 | The chosen slots are pairwise non-overlapping. Their total weight is `dp[n]`, and no non-overlapping choice of the student's slots weighs more. |
| Timetable.Codes | student_records.py:395 | One code per chosen index, in order. |
| Timetable.PredSpec | student_records.py:372-379 | The backward scan stops at the last earlier slot ending by slot `j`'s start. Every slot it passed ends after that start. |
| Timetable.Reconstruct | student_records.py:391-398 | The walk back only picks indices below where it starts. |
| Timetable.CodesTake | student_records.py:393-396 | Taking slot `k-1` on the walk back puts its code after those of the slots taken before it. |
| Timetable.BestNonNegative | student_records.py:381-389 | `dp` values are never negative. |
| Timetable.ReconstructWeight | student_records.py:381-398 | The reconstructed slots weigh exactly `dp[k]`. |
| Timetable.ReconstructChain | student_records.py:372-398 | On slots sorted by end, the reconstructed slots are ascending, each ending before the next starts. |
| Timetable.ChainOptimal | student_records.py:383-389 | No chain of compatible slots below `k` weighs more than `dp[k]`. |
| Timetable.ChainIsDisjoint | student_records.py:359-400 | A chain of slots is pairwise non-overlapping. |
| Timetable.DisjointIsChain | student_records.py:369 | Once sorted by end, pairwise non-overlapping slots form a chain. |
| Timetable.SortByEndCorrect | student_records.py:369 | The stable sort by end time is a permutation sorted by end and keeps slots valid. |
| Timetable.TimetableOptimal | student_records.py:369-399 | The reconstruction is non-overlapping, weighs `dp[n]`, and is a maximum over all non-overlapping subsets. |
| Timetable.BestStep | student_records.py:383-389 | `dp[k]` is the larger of exclusion and inclusion, and inclusion wins only when strictly larger. |
| Timetable.ComputePreds | student_records.py:372-379 | The nested loops fill `p[j]` with the predecessor of every slot. |
| Timetable.ComputeTable | student_records.py:381-389 | The loop fills `dp[t] = Best(t)` and `keep[t] = Keep(t)` for every `t`. |
| Timetable.FillStep | student_records.py:384-389 | One iteration writes `dp[j]` and `keep[j]` and no other entry. |
| Timetable.Collect | student_records.py:391-399 | The walk back followed by `reverse()` returns the codes of the reconstructed slots. |
| Timetable.Optimize | student_records.py:369-399 | Sorting, the three loops and the reversal return the plan of the sorted items. |
| Representatives.CandidatesAt | student_records.py:341-343 | Every student gets one candidate, in registry order, with its score. |
| Representatives.GroupedSpec | student_records.py:340-343 | The `setdefault` buckets are keyed by the departments present. Each holds that department's candidates in registry order. |
| Representatives.GroupedAt | student_records.py:340-343 | One department at a time: present exactly when one of its students is, holding its candidates. |
| Representatives.ChooseEachGrouped | student_records.py:340-349 | Ranking and cutting the `setdefault` buckets gives the declarative per-department choice. |
| Representatives.DeptOrderSpec | student_records.py:340-347 | The result's departments are those present, each listed once. Of any two listed departments, the earlier has a student who comes before every student of the later. |
| Representatives.BucketMembers | student_records.py:343 | A bucket holds exactly the candidates of its department (`department or "-"`). |
| Representatives.RepresentativesKeys | student_records.py:344-349 | A department is in the result exactly when one of its students was scored. |
| Representatives.RankedSpec | student_records.py:346 | A bucket's sort is a stable permutation by descending score. |
| Representatives.ChosenMembers | student_records.py:344-349 | Each department gets between one and `max(1, top)` members, all its own, by descending score. |
| Representatives.ChosenAreBest | student_records.py:344-349 | No candidate left out scores higher than anyone chosen from the same department. |
| Representatives.Take | student_records.py:348 | The slice keeps the first `n` elements, or all when there are fewer. |
| Registry.EnrolmentSpec | student_records.py:260-273 | The ID-to-subjects roster of the registry maps each listed ID to that student's subjects. |
| Registry.ListInOrder | student_records.py:278-279 | The in-order walk of the index lists each student once, in strictly ascending ID order. |
| Registry.GroupByDepartment | student_records.py:340-343 | The first loop builds exactly `Grouped` of the scored students. It lists the departments in the order `setdefault` creates their buckets, which is `DeptOrder`. |
| Registry.ChooseFromBuckets | student_records.py:344-349 | The second loop walks the departments in dictionary order. It keeps each bucket's first `max(1, top)` by descending score. |
| Registry.CollectItems | student_records.py:364-367 | The loop builds the catalog items of the enrolled codes. |
| Registry.StudentRegistry.constructor | student_records.py:241-246 | An empty registry: no students, empty index, queue and catalog. |
| Registry.StudentRegistry.GetById | student_records.py:252-253 | Returns the listed student with that ID, or `None` exactly when no listed student has it. |
| Registry.StudentRegistry.AddStudent | student_records.py:247-251 | A duplicate ID is rejected and nothing changes. Otherwise the student is appended and indexed. List and index stay in step. |
| Registry.StudentRegistry.RemoveStudent | student_records.py:254-257 | An unknown ID is rejected. Otherwise every student with that ID leaves the list and the ID leaves the index. |
| Registry.StudentRegistry.EnqueueAttendance | student_records.py:258-259 | The entry joins the back of the queue. |
| Registry.StudentRegistry.ProcessAttendance | student_records.py:260-273 | Drains the queue in FIFO order. Each student's log gains exactly the records of the entries for its ID and an enrolled subject. The count returned is the number applied. |
| Registry.StudentRegistry.Next | student_records.py:262-272 | Dequeues the front entry and applies it to the student it names, if any. |
| Registry.StudentRegistry.SortedByName | student_records.py:275-277 | A permutation of the students, sorted by lower-cased name, stable. |
| Registry.StudentRegistry.SortedById | student_records.py:278-279 | Each listed student once, in strictly ascending ID order. |
| Registry.StudentRegistry.SortedByGpa | student_records.py:280-283 | A permutation. Ascending: sorted and stable. Descending: sorted descending with ties in reverse list order. |
| Registry.StudentRegistry.BinarySearchByName | student_records.py:284-290 | Returns every student whose lower-cased name equals the lower-cased query, in name-sorted order. |
| Registry.StudentRegistry.ChooseClassRepresentatives | student_records.py:339-349 | The returned dictionary's keys, in order, are `DeptOrder` of the scored students. Its entries are `Representatives` of them, whose properties the lemmas above state. |
| Registry.StudentRegistry.SetSubjectSlot | student_records.py:351-354 | `end <= start` is rejected and the catalog is unchanged. Otherwise the slot is stored under the normalised code. |
| Registry.StudentRegistry.GetSubjectSlot | student_records.py:355-356 | The slot stored under the normalised code, if any. |
| Registry.StudentRegistry.OptimizeTimetableFor | student_records.py:359-400 | An unknown ID is rejected. Otherwise returns the optimal plan of the student's enrolled subjects. |
| TimeFormat.TimeToMinutes | student_records_GUI.py:8-18 | Input empty after `strip()` gives `EmptyTime`, input with no colon gives `NotHHMM`. Any value returned lies in 0..1439. |
| TimeFormat.Combine | student_records_GUI.py:15-18 | A part that is not a number gives `NotANumber`. Hour or minute out of range gives `OutOfRange`. Otherwise the result is `h*60 + m`. |
| TimeFormat.SecondColonRejected | student_records_GUI.py:13-15 | A second colon stays in the minute text and makes it fail to parse. |
| TimeFormat.ColonNotANumber | student_records_GUI.py:14-15 | No text containing a colon parses as an integer. |
| TimeFormat.ParsePad2 | student_records_GUI.py:20-22 | Every zero-padded field `minutes_to_time` writes parses back to its number. |
| TimeFormat.MinutesRoundTrip | student_records_GUI.py:8-22 | Reading back `minutes_to_time(m)` gives `m` for 0 ≤ m < 1440, and `OutOfRange` otherwise. |
| TimeFormat.MinutesOfDay | student_records_GUI.py:20-22 | For an hour below 24 and a minute below 60, the text is the two zero-padded fields joined by `:`. |
| TimeFormat.TimeRoundTrip | student_records_GUI.py:8-22 | A well-formed zero-padded in-range `HH:MM` string is read and written back unchanged. |
| TimeFormat.DigitsValueOf | student_records_GUI.py:22 | The decimal digits written for a number read back as that number. |
| TimeFormat.ParseDigits | student_records_GUI.py:14-22 | `int()` of the decimal digits written for a number gives that number back. |

## Left out

- Floating point: scores, GPAs, weights and rates are exact reals, so the model does not capture binary rounding or `round(x, 2)` in `gpa`, `attendance_rate` and the representative score.
- `gpa()` is a parameter `gpa: Student -> real` of the operations that use it (`sorted_by_gpa`, `choose_class_representatives`). Its averaging and rounding are not modelled.
- Students.AttendanceRate: exact percentage without the rounding to two decimal places.
- Representatives.Score: the score is kept exact; the source stores it rounded to two places, so ties that only rounding creates are not modelled.
- Text.UpperSpec, Text.LowerSpec: case mapping covers ASCII letters only; Python's full Unicode case mapping is not modelled.
- TimeFormat.TimeToMinutes: `int()` is modelled as optional surrounding whitespace, an optional sign and ASCII digits; underscores between digits and non-ASCII digits are not accepted.
- Persistence (`save`, `load`, `save_catalog`, `load_catalog`, `to_dict`, `from_dict`): file and JSON I/O.
- The tkinter `App` class and everything in the GUI file after line 22: user interface.
- `print` warnings in `process_attendance`: output only; the skipped entries are simply not counted.
- `datetime.date.today()`: `ProcessAttendance` takes the date as its `today` parameter.
- `list_students` and `list_subject_slots`: plain copies of `students` and `catalog`, readable directly.
- Registry.StudentRegistry.AddStudent: requires a new student to be valid and to share no object with the registry. The source does not check this; it is what keeps the list and index separate in the heap model.
- Changing a student obtained from the registry directly (outside `ProcessAttendance`) is not modelled; a student's state changes through the `Student` methods only.
- Optimize's `if slot:` treats an empty slot dict as absent; such a slot can only come from `load_catalog`, which is left out, so every catalogued slot counts.
- `int(start)`, `int(end)`, `float(weight)` conversions in `set_subject_slot` and `optimize_timetable_for`: the model takes integers and a real weight; `int(top_per_dept)` is the identity on the integer `top`.
- Stack and queue `is_empty` are query predicates (`IsEmpty`) with no contract of their own; `__iter__` of the stack is its `data` field.
