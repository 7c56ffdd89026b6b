/** The note book (clipack/notebook.py): an ordered list of notes, each a
    title, a text and a string of tags, with index-checked edits, searches
    and a sort by tags. */
module Notes {
  import opened Base
  import opened Text
  import opened Seqs

  datatype Note = Note(title: string, text: string, tags: string)

  /** `Note(title, text, tags)`: missing or empty tags are stored as the
      empty string; title and text are kept as given. */
  function MakeNote(title: string, text: string, tags: Option<string>): (n: Note)
    ensures n.title == title && n.text == text
    ensures n.tags == "" <==> tags.None? || tags.value == ""
    ensures tags.Some? ==> n.tags == tags.value
  {
    Note(title, text, if tags.None? then "" else tags.value)
  }

  /** `text_view_full` as `search_full` builds it: title, tags and text
      joined by single spaces. */
  function FullText(n: Note): string {
    n.title + " " + n.tags + " " + n.text
  }

  // ---------------------------------------------------------------------
  // delete_note_by_title

  /** The positions from `from` on of the notes whose title contains
      `t`, ascending. */
  function MatchesFrom(s: seq<Note>, t: string, from: nat): (r: seq<int>)
    requires from <= |s|
    ensures forall k :: 0 <= k < |r| ==> from <= r[k] < |s| && Contains(s[r[k]].title, t)
    ensures forall i :: from <= i < |s| && Contains(s[i].title, t) ==> i in r
    ensures forall j, k :: 0 <= j < k < |r| ==> r[j] < r[k]
    decreases |s| - from
  {
    if from == |s| then []
    else if Contains(s[from].title, t) then [from] + MatchesFrom(s, t, from + 1)
    else MatchesFrom(s, t, from + 1)
  }

  /** `[i for i, note in enumerate(s) if t in note.title]`: the positions of
      the notes whose title contains `t`, ascending. */
  function TitleMatches(s: seq<Note>, t: string): seq<int>
  {
    MatchesFrom(s, t, 0)
  }

  /** Deleting the positions `idx` one after another, as
      `delete_note_by_index` does: each deletion sees the list the earlier
      ones left, and a position outside it raises `IndexError`, keeping the
      deletions already made. */
  function DeleteAll(s: seq<Note>, idx: seq<int>): (seq<Note>, Outcome)
  {
    if idx == [] then (s, Pass)
    else if 0 <= idx[0] < |s| then DeleteAll(s[..idx[0]] + s[idx[0] + 1..], idx[1..])
    else (s, Fail(IndexError))
  }

  /** No title matches: nothing is deleted. */
  lemma DeleteNoMatch(s: seq<Note>, t: string)
    requires forall i :: 0 <= i < |s| ==> !Contains(s[i].title, t)
    ensures DeleteAll(s, TitleMatches(s, t)) == (s, Pass)
  {
  }

  /** Strictly increasing integers spread at least one apart. */
  lemma {:induction false} IncreasingSpread(r: seq<int>, k: int)
    requires forall a, b :: 0 <= a < b < |r| ==> r[a] < r[b]
    requires 0 <= k < |r|
    ensures r[k] >= r[0] + k
  {
    if k > 0 {
      IncreasingSpread(r, k - 1);
    }
  }

  /** Exactly one title matches: exactly that note is deleted. */
  lemma DeleteOneMatch(s: seq<Note>, t: string, i: int)
    requires 0 <= i < |s| && Contains(s[i].title, t)
    requires forall j :: 0 <= j < |s| && j != i ==> !Contains(s[j].title, t)
    ensures DeleteAll(s, TitleMatches(s, t)) == (s[..i] + s[i + 1..], Pass)
  {
    var r := TitleMatches(s, t);
    assert i in r;
    assert forall k :: 0 <= k < |r| ==> r[k] == i;
    IncreasingSpread(r, |r| - 1);
    assert |r| == 1;
    assert r == [i];
    assert [i][1..] == [];
    assert DeleteAll(s, [i]) == DeleteAll(s[..i] + s[i + 1..], []);
  }

  /** Two titles match, at `i < j`: once the note at `i` is gone the
      second deletion hits position `j` of the shorter list, which holds
      the note that stood at `j + 1`; when `j` was the last position it
      raises `IndexError` instead, after the first deletion. */
  lemma DeleteTwoMatchesShifted(s: seq<Note>, i: int, j: int)
    requires 0 <= i < j < |s|
    ensures j + 1 < |s| ==>
      DeleteAll(s, [i, j]) == (s[..i] + s[i + 1..j + 1] + s[j + 2..], Pass)
    ensures j + 1 == |s| ==>
      DeleteAll(s, [i, j]) == (s[..i] + s[i + 1..], Fail(IndexError))
  {
    var s1 := s[..i] + s[i + 1..];
    assert [i, j][1..] == [j];
    assert DeleteAll(s, [i, j]) == DeleteAll(s1, [j]);
    if j + 1 < |s| {
      assert DeleteAll(s1, [j]) == (s1[..j] + s1[j + 1..], Pass);
      assert s1[..j] == s[..i] + s[i + 1..j + 1];
      assert s1[j + 1..] == s[j + 2..];
    }
  }

  /** For ascending positions the query completes exactly when the `k`-th
      position still lies inside the list shortened by `k` deletions. */
  lemma {:induction false} DeleteAllPassIff(s: seq<Note>, idx: seq<int>)
    requires forall k :: 0 <= k < |idx| ==> idx[k] >= 0
    ensures DeleteAll(s, idx).1.Pass? <==> forall k :: 0 <= k < |idx| ==> idx[k] < |s| - k
    ensures |DeleteAll(s, idx).0| <= |s|
    decreases |idx|
  {
    if idx != [] && idx[0] < |s| {
      var s1 := s[..idx[0]] + s[idx[0] + 1..];
      DeleteAllPassIff(s1, idx[1..]);
      assert forall k :: 0 <= k < |idx| - 1 ==> idx[1..][k] == idx[k + 1];
      if forall k :: 0 <= k < |idx[1..]| ==> idx[1..][k] < |s1| - k {
        forall k | 0 <= k < |idx|
          ensures idx[k] < |s| - k
        {
          if k > 0 {
            assert idx[1..][k - 1] < |s1| - (k - 1);
          }
        }
      }
      if forall k :: 0 <= k < |idx| ==> idx[k] < |s| - k {
        forall k | 0 <= k < |idx[1..]|
          ensures idx[1..][k] < |s1| - k
        {
          assert idx[k + 1] < |s| - (k + 1);
        }
      }
    }
  }

  /** One deletion of the sequence `idx[k..]`. */
  lemma DeleteAllStep(s: seq<Note>, idx: seq<int>, k: int)
    requires 0 <= k < |idx|
    ensures 0 <= idx[k] < |s| ==>
      DeleteAll(s, idx[k..]) == DeleteAll(s[..idx[k]] + s[idx[k] + 1..], idx[k + 1..])
    ensures !(0 <= idx[k] < |s|) ==> DeleteAll(s, idx[k..]) == (s, Fail(IndexError))
  {
    assert idx[k..][0] == idx[k] && idx[k..][1..] == idx[k + 1..];
  }

  // ---------------------------------------------------------------------
  // sort_notes_by_tag: Python's sorted, which is stable

  /** Non-decreasing by tags, neighbour by neighbour. */
  predicate TagsSorted(s: seq<Note>) {
    forall i :: 0 <= i < |s| - 1 ==> StrLe(s[i].tags, s[i + 1].tags)
  }

  /** Places `x` before the first note whose tags are not below its own. */
  function Insert(x: Note, r: seq<Note>): seq<Note>
  {
    if r == [] then [x]
    else if StrLe(x.tags, r[0].tags) then [x] + r
    else [r[0]] + Insert(x, r[1..])
  }

  function SortByTags(s: seq<Note>): seq<Note>
  {
    if s == [] then [] else Insert(s[0], SortByTags(s[1..]))
  }

  function TagIs(c: string): Note -> bool {
    (n: Note) => n.tags == c
  }

  lemma {:induction false} InsertFirst(x: Note, r: seq<Note>)
    ensures Insert(x, r) != []
    ensures Insert(x, r)[0] == x || (r != [] && Insert(x, r)[0] == r[0])
  {
  }

  lemma {:induction false} InsertSorted(x: Note, r: seq<Note>)
    requires TagsSorted(r)
    ensures TagsSorted(Insert(x, r))
    decreases |r|
  {
    if r != [] && !StrLe(x.tags, r[0].tags) {
      StrLeTotal(x.tags, r[0].tags);
      assert TagsSorted(r[1..]);
      InsertSorted(x, r[1..]);
      InsertFirst(x, r[1..]);
      var t := Insert(x, r[1..]);
      assert Insert(x, r) == [r[0]] + t;
      assert StrLe(r[0].tags, t[0].tags);
      assert forall i :: 0 <= i < |t| - 1 ==> ([r[0]] + t)[i + 1] == t[i];
    }
  }

  lemma {:induction false} InsertMultiset(x: Note, r: seq<Note>)
    ensures multiset(Insert(x, r)) == multiset(r) + multiset{x}
    decreases |r|
  {
    if r != [] && !StrLe(x.tags, r[0].tags) {
      InsertMultiset(x, r[1..]);
      assert Insert(x, r) == [r[0]] + Insert(x, r[1..]);
      assert r == [r[0]] + r[1..];
      assert multiset(r) == multiset{r[0]} + multiset(r[1..]);
    }
  }

  /** Among the notes with tags `c`, `x` comes first. */
  lemma {:induction false} InsertStable(x: Note, r: seq<Note>, c: string)
    ensures Filter(Insert(x, r), TagIs(c)) == Filter([x], TagIs(c)) + Filter(r, TagIs(c))
    decreases |r|
  {
    var p := TagIs(c);
    if r == [] {
      assert Filter(r, p) == [];
    } else if StrLe(x.tags, r[0].tags) {
      FilterConcat([x], r, p);
    } else {
      StrLeReflexive(x.tags);
      assert r[0].tags != x.tags;
      InsertStable(x, r[1..], c);
      FilterConcat([r[0]], Insert(x, r[1..]), p);
      FilterConcat([r[0]], r[1..], p);
      assert r == [r[0]] + r[1..];
      FilterConcat([x], r[1..], p);
      FilterConcat([x], r, p);
    }
  }

  /** The sorted notes are non-decreasing by tags. */
  lemma {:induction false} SortSorted(s: seq<Note>)
    ensures TagsSorted(SortByTags(s))
    decreases |s|
  {
    if s != [] {
      SortSorted(s[1..]);
      InsertSorted(s[0], SortByTags(s[1..]));
    }
  }

  /** The sorted notes are the notes, each as often. */
  lemma {:induction false} SortPermutation(s: seq<Note>)
    ensures multiset(SortByTags(s)) == multiset(s)
    decreases |s|
  {
    if s != [] {
      var rest := SortByTags(s[1..]);
      SortPermutation(s[1..]);
      InsertMultiset(s[0], rest);
      assert SortByTags(s) == Insert(s[0], rest);
      assert s == [s[0]] + s[1..];
      assert multiset(s) == multiset{s[0]} + multiset(s[1..]);
    }
  }

  /** Notes with equal tags keep their order. */
  lemma {:induction false} SortStable(s: seq<Note>, c: string)
    ensures Filter(SortByTags(s), TagIs(c)) == Filter(s, TagIs(c))
    decreases |s|
  {
    if s != [] {
      SortStable(s[1..], c);
      InsertStable(s[0], SortByTags(s[1..]), c);
      assert s == [s[0]] + s[1..];
      FilterConcat([s[0]], s[1..], TagIs(c));
    }
  }

  /** Sorted neighbour by neighbour is sorted pair by pair. */
  lemma {:induction false} SortedPairs(s: seq<Note>, i: int, j: int)
    requires TagsSorted(s) && 0 <= i <= j < |s|
    ensures StrLe(s[i].tags, s[j].tags)
    decreases j - i
  {
    if i == j {
      StrLeReflexive(s[i].tags);
    } else {
      SortedPairs(s, i + 1, j);
      StrLeTransitive(s[i].tags, s[i + 1].tags, s[j].tags);
    }
  }

  lemma SortProperties(s: seq<Note>)
    ensures forall i, j :: 0 <= i <= j < |SortByTags(s)| ==> StrLe(SortByTags(s)[i].tags, SortByTags(s)[j].tags)
    ensures multiset(SortByTags(s)) == multiset(s)
    ensures forall c :: Filter(SortByTags(s), TagIs(c)) == Filter(s, TagIs(c))
  {
    SortSorted(s);
    forall i, j | 0 <= i <= j < |SortByTags(s)|
      ensures StrLe(SortByTags(s)[i].tags, SortByTags(s)[j].tags)
    {
      SortedPairs(SortByTags(s), i, j);
    }
    SortPermutation(s);
    forall c
      ensures Filter(SortByTags(s), TagIs(c)) == Filter(s, TagIs(c))
    {
      SortStable(s, c);
    }
  }

  // ---------------------------------------------------------------------
  // Searches

  function TagHas(q: string): Note -> bool {
    (n: Note) => Contains(n.tags, q)
  }

  function FullHas(q: string): Note -> bool {
    (n: Note) => Contains(FullText(n), q)
  }

  // ---------------------------------------------------------------------
  // The note book

  class NoteBook {
    var notes: seq<Note>

    constructor ()
      ensures notes == []
    {
      notes := [];
    }

    /** `add_note`: a new note at the end. */
    method AddNote(title: string, text: string, tags: Option<string>)
      modifies this
      ensures notes == old(notes) + [MakeNote(title, text, tags)]
    {
      notes := notes + [MakeNote(title, text, tags)];
    }

    /** `add_note_tags`: the tags are appended to the note's tags with no
        separator (both branches of the source's conditional append the
        same string). */
    method AddNoteTags(index: int, tags: string) returns (o: Outcome)
      modifies this
      ensures o.Pass? <==> 0 <= index < |old(notes)|
      ensures o.Pass? ==> |notes| == |old(notes)|
      ensures o.Pass? ==> notes == old(notes)[index := old(notes)[index].(tags := old(notes)[index].tags + tags)]
      ensures o.Fail? ==> o.error == IndexError && notes == old(notes)
    {
      if 0 <= index < |notes| {
        var n := notes[index];
        notes := notes[index := n.(tags := n.tags + tags)];
        return Pass;
      }
      return Fail(IndexError);
    }

    /** `edit_note`: the note at `index` is replaced by a new one. */
    method EditNote(index: int, title: string, text: string, tags: Option<string>) returns (o: Outcome)
      modifies this
      ensures o.Pass? <==> 0 <= index < |old(notes)|
      ensures o.Pass? ==> notes == old(notes)[index := MakeNote(title, text, tags)]
      ensures o.Fail? ==> o.error == IndexError && notes == old(notes)
    {
      if 0 <= index < |notes| {
        notes := notes[index := MakeNote(title, text, tags)];
        return Pass;
      }
      return Fail(IndexError);
    }

    /** `delete_note_by_index`: the note at `index` goes, the others keep
        their order. */
    method DeleteNoteByIndex(index: int) returns (o: Outcome)
      modifies this
      ensures o.Pass? <==> 0 <= index < |old(notes)|
      ensures o.Pass? ==> notes == old(notes)[..index] + old(notes)[index + 1..]
      ensures o.Fail? ==> o.error == IndexError && notes == old(notes)
    {
      if 0 <= index < |notes| {
        notes := notes[..index] + notes[index + 1..];
        return Pass;
      }
      return Fail(IndexError);
    }

    /** `delete_note_by_title`: the positions of the matching titles are
        computed first and then deleted one by one. */
    method DeleteNoteByTitle(title: string) returns (o: Outcome)
      modifies this
      ensures (notes, o) == DeleteAll(old(notes), TitleMatches(old(notes), title))
    {
      var idx := TitleMatches(notes, title);
      var k := 0;
      while k < |idx|
        invariant 0 <= k <= |idx|
        invariant DeleteAll(notes, idx[k..]) == DeleteAll(old(notes), idx)
      {
        DeleteAllStep(notes, idx, k);
        var r := DeleteNoteByIndex(idx[k]);
        if r.Fail? {
          return r;
        }
        k := k + 1;
      }
      return Pass;
    }

    /** `search_full`: the notes whose title, tags and text, joined by
        spaces, contain `q`, in order. */
    function SearchFull(q: string): (r: seq<Note>)
      reads this
      ensures forall i :: 0 <= i < |r| ==> Contains(FullText(r[i]), q)
      ensures forall n :: n in r <==> n in notes && Contains(FullText(n), q)
      ensures forall n :: multiset(r)[n] == if Contains(FullText(n), q) then multiset(notes)[n] else 0
      ensures IsSubseq(r, notes)
    {
      FilterCounts(notes, FullHas(q));
      FilterSubseq(notes, FullHas(q));
      Filter(notes, FullHas(q))
    }

    /** `search_by_tag`: the notes whose tags contain `q`, in order. */
    function SearchByTag(q: string): (r: seq<Note>)
      reads this
      ensures forall i :: 0 <= i < |r| ==> Contains(r[i].tags, q)
      ensures forall n :: n in r <==> n in notes && Contains(n.tags, q)
      ensures forall n :: multiset(r)[n] == if Contains(n.tags, q) then multiset(notes)[n] else 0
      ensures IsSubseq(r, notes)
    {
      FilterCounts(notes, TagHas(q));
      FilterSubseq(notes, TagHas(q));
      Filter(notes, TagHas(q))
    }

    /** `sort_notes_by_tag`: the notes ordered by tags, a permutation that
        keeps notes with equal tags in their order; the book is left as it
        is. */
    function SortNotesByTag(): (r: seq<Note>)
      reads this
      ensures forall i, j :: 0 <= i <= j < |r| ==> StrLe(r[i].tags, r[j].tags)
      ensures multiset(r) == multiset(notes)
      ensures forall c :: Filter(r, TagIs(c)) == Filter(notes, TagIs(c))
    {
      SortProperties(notes);
      SortByTags(notes)
    }
  }
}
