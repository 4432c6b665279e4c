/** The history store: the JSON array in `data.json` that every accepted
    reading is appended to, kept ordered by timestamp. The file's content is
    abstracted to what `JSON.parse` makes of it. */
module History {
  import opened Readings

  /** The data file as the server finds it: missing, not parseable as JSON,
      or a JSON array of readings. */
  datatype FileState = Absent | Corrupt | Valid(history: seq<Reading>)

  /** Which of the file system calls of one operation fail. */
  datatype Io = Io(readFails: bool, writeFails: bool)

  /** How an append ends: the read callback gave an error, the write
      callback gave an error, or the sorted history was written. */
  datatype AppendResult = ReadFailed | WriteFailed | Saved

  /** What `GET /api/data` answers: the parsed history, the 500 reply
      `{error: "Failed to read data"}`, or an exception that `JSON.parse`
      throws inside the read callback, which nothing catches. */
  datatype DataResponse = Json(history: seq<Reading>) | ReadError | Uncaught

  predicate SortedByTime(s: seq<Reading>) {
    forall i, j :: 0 <= i < j < |s| ==> s[i].timestamp <= s[j].timestamp
  }

  // ---------------------------------------------------------------------
  // The order `Array.prototype.sort` leaves the history in. The comparator
  // subtracts the two timestamps, and the sort is stable, so readings end
  // up ordered by timestamp and readings with equal timestamps keep their
  // relative order. Insertion sort is one sort with that outcome;
  // `StableSortUnique` shows it is the only outcome.
  // ---------------------------------------------------------------------

  /** `x` placed after the trailing run of elements with a later timestamp. */
  function Insert(s: seq<Reading>, x: Reading): (r: seq<Reading>)
    ensures |r| == |s| + 1
  {
    if s == [] || s[|s| - 1].timestamp <= x.timestamp then s + [x]
    else Insert(s[..|s| - 1], x) + [s[|s| - 1]]
  }

  /** The history sorted by timestamp, stably. */
  function SortByTime(s: seq<Reading>): (r: seq<Reading>)
    ensures |r| == |s|
  {
    if s == [] then []
    else Insert(SortByTime(s[..|s| - 1]), s[|s| - 1])
  }

  /** Inserting adds exactly `x`. */
  lemma {:induction false} InsertPermutes(s: seq<Reading>, x: Reading)
    ensures multiset(Insert(s, x)) == multiset(s) + multiset{x}
  {
    if s != [] {
      var front, last := s[..|s| - 1], s[|s| - 1];
      assert s == front + [last];
      if last.timestamp > x.timestamp {
        InsertPermutes(front, x);
      }
    }
  }

  /** Sorting neither loses nor duplicates a reading. */
  lemma {:induction false} SortPermutes(s: seq<Reading>)
    ensures multiset(SortByTime(s)) == multiset(s)
  {
    if s != [] {
      var front, last := s[..|s| - 1], s[|s| - 1];
      assert s == front + [last];
      SortPermutes(front);
      InsertPermutes(SortByTime(front), last);
    }
  }

  /** The readings of `s` stamped `t`, in their order in `s`. */
  function WithTime(s: seq<Reading>, t: int): (r: seq<Reading>)
    ensures |r| <= |s|
  {
    if s == [] then []
    else WithTime(s[..|s| - 1], t) + (if s[|s| - 1].timestamp == t then [s[|s| - 1]] else [])
  }

  /** `WithTime` keeps exactly the readings stamped `t`. */
  lemma {:induction false} WithTimeMembers(s: seq<Reading>, t: int, x: Reading)
    ensures x in WithTime(s, t) <==> x in s && x.timestamp == t
  {
    if s != [] {
      var front := s[..|s| - 1];
      WithTimeMembers(front, t, x);
      assert s == front + [s[|s| - 1]];
    }
  }

  /** Sorting keeps the relative order of readings with equal timestamps. */
  ghost predicate Stable(s: seq<Reading>, r: seq<Reading>) {
    forall t :: WithTime(r, t) == WithTime(s, t)
  }

  lemma {:induction false} WithTimeConcat(a: seq<Reading>, b: seq<Reading>, t: int)
    ensures WithTime(a + b, t) == WithTime(a, t) + WithTime(b, t)
  {
    if b == [] {
      assert a + b == a;
    } else {
      var n := |b| - 1;
      assert (a + b)[..|a + b| - 1] == a + b[..n];
      WithTimeConcat(a, b[..n], t);
    }
  }

  /** Inserting is sorted when the history was. */
  lemma {:induction false} InsertSorted(s: seq<Reading>, x: Reading)
    requires SortedByTime(s)
    ensures SortedByTime(Insert(s, x))
  {
    if s != [] && s[|s| - 1].timestamp > x.timestamp {
      var front, last := s[..|s| - 1], s[|s| - 1];
      assert forall k :: 0 <= k < |front| ==> front[k] == s[k];
      InsertSorted(front, x);
      InsertBounded(front, x, last.timestamp);
      SnocSorted(Insert(front, x), last);
    }
  }

  /** Insertion adds no timestamp above a bound that all of its inputs
      respect. */
  lemma InsertBounded(s: seq<Reading>, x: Reading, t: int)
    requires forall k :: 0 <= k < |s| ==> s[k].timestamp <= t
    requires x.timestamp <= t
    ensures forall k :: 0 <= k < |Insert(s, x)| ==> Insert(s, x)[k].timestamp <= t
  {
    var m := Insert(s, x);
    InsertPermutes(s, x);
    forall k | 0 <= k < |m|
      ensures m[k].timestamp <= t
    {
      assert m[k] in multiset(m);
      if m[k] != x {
        assert m[k] in multiset(s);
      }
    }
  }

  /** A reading no earlier than any in a sorted history extends it sorted. */
  lemma SnocSorted(m: seq<Reading>, last: Reading)
    requires SortedByTime(m)
    requires forall k :: 0 <= k < |m| ==> m[k].timestamp <= last.timestamp
    ensures SortedByTime(m + [last])
  {
  }

  /** The inserted reading comes after every reading with its timestamp. */
  lemma {:induction false} InsertStable(s: seq<Reading>, x: Reading, t: int)
    ensures WithTime(Insert(s, x), t) == WithTime(s, t) + (if x.timestamp == t then [x] else [])
  {
    if s == [] || s[|s| - 1].timestamp <= x.timestamp {
      WithTimeSnoc(s, x, t);
    } else {
      var front, last := s[..|s| - 1], s[|s| - 1];
      var m := Insert(front, x);
      assert Insert(s, x) == m + [last];
      InsertStable(front, x, t);
      WithTimeSnoc(m, last, t);
      if x.timestamp == t {
        assert WithTime(s, t) == WithTime(front, t);
      }
    }
  }

  lemma WithTimeSnoc(s: seq<Reading>, y: Reading, t: int)
    ensures WithTime(s + [y], t) == WithTime(s, t) + (if y.timestamp == t then [y] else [])
  {
    assert (s + [y])[..|s|] == s;
  }

  lemma {:induction false} SortSorted(s: seq<Reading>)
    ensures SortedByTime(SortByTime(s))
  {
    if s != [] {
      SortSorted(s[..|s| - 1]);
      InsertSorted(SortByTime(s[..|s| - 1]), s[|s| - 1]);
    }
  }

  lemma {:induction false} SortStable(s: seq<Reading>, t: int)
    ensures WithTime(SortByTime(s), t) == WithTime(s, t)
  {
    if s != [] {
      SortStable(s[..|s| - 1], t);
      InsertStable(SortByTime(s[..|s| - 1]), s[|s| - 1], t);
    }
  }

  /** The sort of `s` is ordered by timestamp, is a permutation of `s`,
      and is stable. */
  lemma SortByTimeCorrect(s: seq<Reading>)
    ensures SortedByTime(SortByTime(s))
    ensures multiset(SortByTime(s)) == multiset(s)
    ensures Stable(s, SortByTime(s))
  {
    SortSorted(s);
    SortPermutes(s);
    forall t
      ensures WithTime(SortByTime(s), t) == WithTime(s, t)
    {
      SortStable(s, t);
    }
  }

  /** In a sorted sequence the last element has the latest timestamp. */
  lemma SortedLastIsLatest(s: seq<Reading>, y: Reading)
    requires SortedByTime(s) && y in s
    ensures y.timestamp <= s[|s| - 1].timestamp
  {
  }

  /** Two sorted sequences that agree on the readings of every timestamp,
      in order, are equal. */
  lemma {:induction false} SortedSameClassesEqual(r: seq<Reading>, q: seq<Reading>)
    requires SortedByTime(r) && SortedByTime(q)
    requires forall t :: WithTime(r, t) == WithTime(q, t)
    ensures r == q
  {
    if r == [] || q == [] {
      if r != [] {
        ClassEndsWithLast(r);
      } else if q != [] {
        ClassEndsWithLast(q);
      }
    } else {
      assert WithTime(r, r[|r| - 1].timestamp) == WithTime(q, r[|r| - 1].timestamp);
      assert WithTime(r, q[|q| - 1].timestamp) == WithTime(q, q[|q| - 1].timestamp);
      SameLast(r, q);
      var ra, qb := r[..|r| - 1], q[..|q| - 1];
      forall t
        ensures WithTime(ra, t) == WithTime(qb, t)
      {
        FrontClasses(r, q, t);
      }
      SortedPrefix(r);
      SortedPrefix(q);
      SortedSameClassesEqual(ra, qb);
      assert r == ra + [r[|r| - 1]] && q == qb + [q[|q| - 1]];
    }
  }

  /** Dropping the same last reading from both sides keeps the readings of
      each timestamp equal. */
  lemma FrontClasses(r: seq<Reading>, q: seq<Reading>, t: int)
    requires r != [] && q != [] && r[|r| - 1] == q[|q| - 1]
    requires WithTime(r, t) == WithTime(q, t)
    ensures WithTime(r[..|r| - 1], t) == WithTime(q[..|q| - 1], t)
  {
    var a, ra, qb := r[|r| - 1], r[..|r| - 1], q[..|q| - 1];
    if a.timestamp == t {
      assert WithTime(r, t) == WithTime(ra, t) + [a];
      assert WithTime(q, t) == WithTime(qb, t) + [a];
      DropLast(WithTime(ra, t), WithTime(qb, t), a);
    } else {
      assert WithTime(r, t) == WithTime(ra, t);
      assert WithTime(q, t) == WithTime(qb, t);
    }
  }

  lemma SortedPrefix(s: seq<Reading>)
    requires SortedByTime(s) && s != []
    ensures SortedByTime(s[..|s| - 1])
  {
  }

  lemma DropLast(u: seq<Reading>, v: seq<Reading>, a: Reading)
    requires u + [a] == v + [a]
    ensures u == v
  {
    assert u == (u + [a])[..|u|];
    assert v == (v + [a])[..|v|];
  }

  /** If the last reading of `r` is also among the readings of `q` with
      its timestamp, it is no later than the last reading of sorted `q`. */
  lemma LastBound(r: seq<Reading>, q: seq<Reading>)
    requires SortedByTime(q) && r != [] && q != []
    requires WithTime(r, r[|r| - 1].timestamp) == WithTime(q, r[|r| - 1].timestamp)
    ensures r[|r| - 1].timestamp <= q[|q| - 1].timestamp
  {
    var a := r[|r| - 1];
    assert a in r;
    WithTimeMembers(r, a.timestamp, a);
    WithTimeMembers(q, a.timestamp, a);
    SortedLastIsLatest(q, a);
  }

  /** Two nonempty sorted sequences that agree on the timestamps of their
      last readings end in the same reading. */
  lemma SameLast(r: seq<Reading>, q: seq<Reading>)
    requires SortedByTime(r) && SortedByTime(q) && r != [] && q != []
    requires WithTime(r, r[|r| - 1].timestamp) == WithTime(q, r[|r| - 1].timestamp)
    requires WithTime(r, q[|q| - 1].timestamp) == WithTime(q, q[|q| - 1].timestamp)
    ensures r[|r| - 1] == q[|q| - 1]
  {
    LastBound(r, q);
    LastBound(q, r);
    ClassEndsWithLast(r);
    ClassEndsWithLast(q);
  }

  /** The readings stamped like the last one end with it. */
  lemma ClassEndsWithLast(s: seq<Reading>)
    requires s != []
    ensures var c := WithTime(s, s[|s| - 1].timestamp); c != [] && c[|c| - 1] == s[|s| - 1]
  {
  }

  /** Any order of `s` that is sorted by timestamp and stable is the one
      `SortByTime` gives, so the model does not depend on which stable
      sort the JavaScript engine runs. */
  lemma StableSortUnique(s: seq<Reading>, r: seq<Reading>)
    requires SortedByTime(r) && Stable(s, r)
    ensures r == SortByTime(s)
  {
    SortByTimeCorrect(s);
    SortedSameClassesEqual(r, SortByTime(s));
  }

  /** Sorting a sorted history changes nothing. */
  lemma {:induction false} SortOfSorted(s: seq<Reading>)
    requires SortedByTime(s)
    ensures SortByTime(s) == s
  {
    if s != [] {
      var front := s[..|s| - 1];
      SortOfSorted(front);
      assert s == front + [s[|s| - 1]];
    }
  }

  /** `Insert` puts `x` right after the last reading that is no later than
      it. */
  lemma {:induction false} InsertAtIndex(s: seq<Reading>, j: int, x: Reading)
    requires 0 <= j <= |s| && (j == 0 || s[j - 1].timestamp <= x.timestamp)
    requires forall k :: j <= k < |s| ==> s[k].timestamp > x.timestamp
    ensures Insert(s, x) == s[..j] + [x] + s[j..]
  {
    if j == |s| {
      assert s[..j] == s && s[j..] == [];
    } else {
      var front, last := s[..|s| - 1], s[|s| - 1];
      InsertAtIndex(front, j, x);
      assert front[..j] == s[..j];
      assert front[j..] + [last] == s[j..];
    }
  }

  /** Sorting one more element is inserting it into the sorted prefix. */
  lemma SortStep(s: seq<Reading>, i: int)
    requires 0 <= i < |s|
    ensures SortByTime(s[..i + 1]) == Insert(SortByTime(s[..i]), s[i])
  {
    assert s[..i + 1][..i] == s[..i];
  }

  /** The in-place sort of the array the history was parsed into. */
  method SortByTimestamp(a: array<Reading>)
    modifies a
    ensures a[..] == SortByTime(old(a[..]))
  {
    ghost var s := a[..];
    for i := 0 to a.Length
      invariant a[..i] == SortByTime(s[..i])
      invariant forall k :: i <= k < a.Length ==> a[k] == s[k]
    {
      InsertAt(a, i);
      SortStep(s, i);
    }
    assert s[..a.Length] == s;
  }

  /** Moves `a[i]` back past the later readings in front of it. */
  method InsertAt(a: array<Reading>, i: int)
    requires 0 <= i < a.Length
    modifies a
    ensures a[..i + 1] == Insert(old(a[..i]), old(a[i]))
    ensures forall k :: i < k < a.Length ==> a[k] == old(a[k])
  {
    ghost var sorted := a[..i];
    var x := a[i];
    var j := i;
    while j > 0 && a[j - 1].timestamp > x.timestamp
      invariant 0 <= j <= i
      invariant forall k :: 0 <= k < j ==> a[k] == sorted[k]
      invariant forall k :: j < k <= i ==> a[k] == sorted[k - 1]
      invariant forall k :: i < k < a.Length ==> a[k] == old(a[k])
      invariant forall k :: j <= k < i ==> sorted[k].timestamp > x.timestamp
    {
      a[j] := a[j - 1];
      j := j - 1;
    }
    a[j] := x;
    InsertAtIndex(sorted, j, x);
    Assemble(a[..i + 1], sorted, j, x);
  }

  /** A sequence that holds `sorted` with `x` slotted in at `j`. */
  lemma Assemble(t: seq<Reading>, sorted: seq<Reading>, j: int, x: Reading)
    requires |t| == |sorted| + 1 && 0 <= j <= |sorted| && t[j] == x
    requires forall k :: 0 <= k < j ==> t[k] == sorted[k]
    requires forall k :: j < k < |t| ==> t[k] == sorted[k - 1]
    ensures t == sorted[..j] + [x] + sorted[j..]
  {
  }

  // ---------------------------------------------------------------------
  // The file operations, as functions of the file before them.
  // ---------------------------------------------------------------------

  /** What the append handler starts from once the read succeeded: the
      parsed array, or `[]` when `JSON.parse` threw. */
  function Existing(f: FileState): seq<Reading> {
    if f.Valid? then f.history else []
  }

  /** The file after one append of `r`, and how the append ended. A failed
      read (a missing file is one) stops before anything is written; a
      failed write leaves the old content. */
  function AppendSpec(f: FileState, r: Reading, io: Io): (FileState, AppendResult) {
    if io.readFails || f.Absent? then (f, ReadFailed)
    else if io.writeFails then (f, WriteFailed)
    else (Valid(SortByTime(Existing(f) + [r])), Saved)
  }

  /** The file after the start-up check: created as `[]` when missing,
      rewritten as `[]` when it cannot be read or parsed, kept otherwise. */
  function Bootstrapped(f: FileState, readFails: bool): FileState {
    if f.Valid? && !readFails then f else Valid([])
  }

  /** The file after `POST /api/clear-data`. */
  function Cleared(f: FileState, writeFails: bool): FileState {
    if writeFails then f else Valid([])
  }

  /** The answer of `GET /api/data` for the file as it is. */
  function Fetch(f: FileState, readFails: bool): DataResponse {
    if readFails || f.Absent? then ReadError
    else if f.Corrupt? then Uncaught
    else Json(f.history)
  }

  /** An append saves exactly when the file could be read and written. */
  lemma AppendOutcome(f: FileState, r: Reading, io: Io)
    ensures AppendSpec(f, r, io).1 == Saved <==> !io.readFails && !f.Absent? && !io.writeFails
    ensures AppendSpec(f, r, io).1 != Saved ==> AppendSpec(f, r, io).0 == f
    ensures AppendSpec(f, r, io).1 == ReadFailed <==> io.readFails || f.Absent?
  {
  }

  /** A saved append holds the old history plus `r`, sorted by timestamp,
      with equal timestamps in arrival order. */
  lemma AppendSaved(f: FileState, r: Reading, io: Io)
    requires AppendSpec(f, r, io).1 == Saved
    ensures var g := AppendSpec(f, r, io).0;
            g.Valid? && |g.history| == |Existing(f)| + 1 && SortedByTime(g.history)
            && multiset(g.history) == multiset(Existing(f)) + multiset{r}
            && Stable(Existing(f) + [r], g.history)
  {
    SortByTimeCorrect(Existing(f) + [r]);
  }

  /** A corrupt file is replaced by a history holding only the new reading. */
  lemma AppendAfterCorruption(r: Reading, io: Io)
    requires !io.readFails && !io.writeFails
    ensures AppendSpec(Corrupt, r, io) == (Valid([r]), Saved)
  {
    assert Existing(Corrupt) + [r] == [r];
    assert SortByTime([r]) == Insert(SortByTime([]), r);
  }

  /** Appending to a sorted history inserts the new reading after every
      reading that is no later than it. */
  lemma AppendIsInsertion(h: seq<Reading>, r: Reading)
    requires SortedByTime(h)
    ensures SortByTime(h + [r]) == Insert(h, r)
  {
    assert (h + [r])[..|h|] == h;
    SortOfSorted(h);
  }

  /** With a clock that never goes back, the new reading goes at the end. */
  lemma AppendLatest(h: seq<Reading>, r: Reading)
    requires SortedByTime(h)
    requires forall i :: 0 <= i < |h| ==> h[i].timestamp <= r.timestamp
    ensures SortByTime(h + [r]) == h + [r]
  {
    AppendIsInsertion(h, r);
  }

  /** After start-up the file always parses, and a readable history is kept. */
  lemma BootstrapValid(f: FileState, readFails: bool)
    ensures Bootstrapped(f, readFails).Valid?
    ensures f.Valid? && !readFails ==> Bootstrapped(f, readFails) == f
    ensures Fetch(Bootstrapped(f, readFails), false) == Json(if f.Valid? && !readFails then f.history else [])
  {
  }

  /** A successful clear leaves an empty history that reads back as `[]`. */
  lemma ClearEmpties(f: FileState, writeFails: bool)
    ensures !writeFails ==> Fetch(Cleared(f, writeFails), false) == Json([])
    ensures writeFails ==> Cleared(f, writeFails) == f
  {
  }

  /** The data file, updated in place by the handlers. */
  class Store {
    var file: FileState

    constructor (initial: FileState)
      ensures file == initial
    {
      file := initial;
    }

    /** The start-up block that makes sure the file holds a JSON array. */
    method Bootstrap(readFails: bool)
      modifies this
      ensures file == Bootstrapped(old(file), readFails)
    {
      if !file.Valid? || readFails {
        file := Valid([]);
      }
    }

    /** Read, parse (resetting a corrupt file to `[]`), push, sort, write. */
    method Append(r: Reading, io: Io) returns (res: AppendResult)
      modifies this
      ensures (file, res) == AppendSpec(old(file), r, io)
    {
      if io.readFails || file.Absent? {
        return ReadFailed;
      }
      var existing := if file.Valid? then file.history else [];
      var a := new Reading[|existing| + 1](i => if 0 <= i < |existing| then existing[i] else r);
      assert a[..] == existing + [r];
      SortByTimestamp(a);
      if io.writeFails {
        return WriteFailed;
      }
      file := Valid(a[..]);
      res := Saved;
    }

    /** Overwrite the file with `[]`; `ok` is whether the write succeeded. */
    method Clear(writeFails: bool) returns (ok: bool)
      modifies this
      ensures ok == !writeFails && file == Cleared(old(file), writeFails)
    {
      if writeFails {
        return false;
      }
      file := Valid([]);
      ok := true;
    }

    /** `GET /api/data`: the parsed file, a 500 error, or a parse exception. */
    method Read(readFails: bool) returns (res: DataResponse)
      ensures res == Fetch(file, readFails)
    {
      if readFails || file.Absent? {
        res := ReadError;
      } else if file.Corrupt? {
        res := Uncaught;
      } else {
        res := Json(file.history);
      }
    }
  }
}
