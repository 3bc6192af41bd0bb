/** Whole runs of a hash against a plain dictionary. */
module HashRuns {
  import opened Sequences
  import opened HashTables
  import opened Uthash

  /** ADD is HASH_ADD, REPLACE is HASH_REPLACE, DELETE is HASH_DELETE of what HASH_FIND returns. */
  datatype Op = ADD(e: Element) | REPLACE(e: Element) | DELETE(key: Key) | FIND(key: Key)

  /** A finite map, and its keys in the order in which they were added. */
  datatype Dictionary = Dictionary(entries: map<Key, Element>, keys: seq<Key>)

  function KeyOf(op: Op): Key {
    match op
    case ADD(e) => e.key
    case REPLACE(e) => e.key
    case DELETE(key) => key
    case FIND(key) => key
  }

  /** HASH_ADD demands a new key. */
  ghost predicate Legal(d: Dictionary, op: Op) {
    op.ADD? ==> op.e.key !in d.entries
  }

  ghost function After(d: Dictionary, op: Op): Dictionary {
    match op
    case ADD(e) => Dictionary(d.entries[e.key := e], d.keys + [e.key])
    case REPLACE(e) => Dictionary(d.entries[e.key := e], Minus(d.keys, e.key) + [e.key])
    case DELETE(key) => Dictionary(d.entries - {key}, Minus(d.keys, key))
    case FIND(_) => d
  }

  /** The element that had the operation's key. */
  ghost function Answer(d: Dictionary, op: Op): Element? {
    if KeyOf(op) in d.entries then d.entries[KeyOf(op)] else null
  }

  ghost function AfterAll(d: Dictionary, ops: seq<Op>): Dictionary {
    if ops == [] then d else After(AfterAll(d, ops[..|ops| - 1]), ops[|ops| - 1])
  }

  /** Every operation is legal when its turn comes. */
  ghost predicate AllLegal(d: Dictionary, ops: seq<Op>) {
    forall i {:trigger ops[i]} :: 0 <= i < |ops| ==> Legal(AfterAll(d, ops[..i]), ops[i])
  }

  /** What the application list says. */
  ghost function DictionaryOf(A: seq<Element>): Dictionary { Dictionary(Contents(A), Keys(A)) }

  /** The elements that the operations bring. */
  function Brought(op: Op): set<Element> {
    match op
    case ADD(e) => {e}
    case REPLACE(e) => {e}
    case DELETE(_) => {}
    case FIND(_) => {}
  }

  function AllBrought(ops: seq<Op>): set<Element> {
    set i, e | 0 <= i < |ops| && e in Brought(ops[i]) :: e
  }

  // ---------- Keys ----------

  lemma KeysDistinct(A: seq<Element>)
    requires UniqueKeys(A)
    ensures Distinct(Keys(A))
    ensures forall key {:trigger key in Contents(A)} :: key in Contents(A) <==> key in Keys(A)
  {
    hide Contents;
    ContentsHold(A);
    forall key ensures key in Contents(A) <==> key in Keys(A) {
      if key in Contents(A) { KeyOfElement(A, Contents(A)[key]); }
      if key in Keys(A) {
        var i :| 0 <= i < |A| && Keys(A)[i] == key;
        assert A[i] in A;
      }
    }
  }

  lemma KeyOfElement(A: seq<Element>, e: Element)
    requires e in A
    ensures e.key in Keys(A)
  {
    var i :| 0 <= i < |A| && A[i] == e;
    assert Keys(A)[i] == e.key;
  }

  lemma KeysReplaced(A: seq<Element>, i: nat, x: Element)
    requires UniqueKeys(A) && i < |A| && A[i].key == x.key
    ensures Keys(Without(A, i) + [x]) == Minus(Keys(A), x.key) + [x.key]
    ensures Keys(Without(A, i)) == Minus(Keys(A), x.key)
  {
    hide Contents;
    KeysDistinct(A);
    MinusAt(Keys(A), i);
    ContentsDropped(A, i);
    ContentsAdded(Without(A, i), x);
  }

  lemma KeysAppended(A: seq<Element>, x: Element)
    requires UniqueKeys(A) && x.key !in Contents(A)
    ensures Keys(A + [x]) == Minus(Keys(A), x.key) + [x.key]
  {
    hide Contents;
    KeysDistinct(A);
    MinusAbsent(Keys(A), x.key);
    ContentsAdded(A, x);
  }

  lemma KeysNot(A: seq<Element>, key: Key)
    requires UniqueKeys(A) && key !in Contents(A)
    ensures Minus(Keys(A), key) == Keys(A) && Contents(A) - {key} == Contents(A)
  {
    hide Contents;
    KeysDistinct(A);
    MinusAbsent(Keys(A), key);
  }

  lemma KeyPresent(A: seq<Element>, x: Element)
    requires UniqueKeys(A) && x in A
    ensures x.key in Contents(A)
  {
    ContentsHold(A);
  }

  // ---------- Operations ----------

  method DoReplace(h: HashHead, e: Element) returns (answer: Element?)
    requires h.Valid()
    modifies h, h.Repr, e
    ensures h.Valid() && fresh(h.Repr - old(h.Repr) - {e})
    ensures DictionaryOf(h.A) == After(DictionaryOf(old(h.A)), REPLACE(e))
    ensures answer == Answer(DictionaryOf(old(h.A)), REPLACE(e))
  {
    hide Contents, Keys, HashHead.Valid, Without;
    ghost var A := h.A;
    h.KeysAreUnique();
    answer := h.Replace(e);
    if answer != null {
      ghost var i :| 0 <= i < |A| && A[i] == answer && h.A == Without(A, i) + [e];
      KeysReplaced(A, i, e);
    } else {
      KeysAppended(A, e);
    }
  }

  method DoDelete(h: HashHead, key: Key) returns (answer: Element?)
    requires h.Valid()
    modifies h, h.Repr
    ensures h.Valid() && fresh(h.Repr - old(h.Repr))
    ensures DictionaryOf(h.A) == After(DictionaryOf(old(h.A)), DELETE(key))
    ensures answer == Answer(DictionaryOf(old(h.A)), DELETE(key))
  {
    hide Contents, Keys, HashHead.Valid, Without;
    ghost var A := h.A;
    h.KeysAreUnique();
    answer := h.Find(key);
    if answer != null {
      ghost var i := h.Delete(answer);
      KeysReplaced(A, i, answer);
    } else {
      KeysNot(A, key);
    }
  }

  /** One operation, and the element that had its key. */
  method Do(h: HashHead, op: Op) returns (answer: Element?)
    requires h.Valid() && Legal(DictionaryOf(h.A), op)
    modifies h, h.Repr, Brought(op)
    ensures h.Valid() && fresh(h.Repr - old(h.Repr) - Brought(op))
    ensures DictionaryOf(h.A) == After(DictionaryOf(old(h.A)), op)
    ensures answer == Answer(DictionaryOf(old(h.A)), op)
  {
    hide Contents, Keys, HashHead.Valid, UniqueKeys;
    match op
    case ADD(e) =>
      h.KeysAreUnique();
      if e in h.A { KeyPresent(h.A, e); }
      h.Add(e);
      answer := null;
    case REPLACE(e) =>
      answer := DoReplace(h, e);
    case DELETE(key) =>
      answer := DoDelete(h, key);
    case FIND(key) =>
      answer := h.Find(key);
  }

  /** Every run of legal operations leaves in the hash what it leaves in the dictionary, and gives the
      dictionary's answers. */
  method Run(h: HashHead, ops: seq<Op>) returns (answers: seq<Element?>)
    requires h.Valid() && AllLegal(DictionaryOf(h.A), ops)
    modifies h, h.Repr, AllBrought(ops)
    ensures h.Valid() && DictionaryOf(h.A) == AfterAll(DictionaryOf(old(h.A)), ops)
    ensures |answers| == |ops|
    ensures forall i {:trigger answers[i]} :: 0 <= i < |ops| ==>
      answers[i] == Answer(AfterAll(DictionaryOf(old(h.A)), ops[..i]), ops[i])
  {
    hide DictionaryOf, HashHead.Valid, After, Answer, Legal, Brought;
    ghost var d := DictionaryOf(h.A);
    answers := [];
    assert ops[..0] == [];
    for n := 0 to |ops|
      invariant h.Valid() && fresh(h.Repr - old(h.Repr) - AllBrought(ops))
      invariant DictionaryOf(h.A) == AfterAll(d, ops[..n]) && |answers| == n
      invariant forall i {:trigger answers[i]} :: 0 <= i < n ==> answers[i] == Answer(AfterAll(d, ops[..i]), ops[i])
    {
      var answer := Do(h, ops[n]);
      answers := answers + [answer];
      assert ops[..n + 1][..n] == ops[..n];
    }
    assert ops[..|ops|] == ops;
  }
}
