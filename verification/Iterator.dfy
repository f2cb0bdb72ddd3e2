/**
 The wrap-around field iterator of pb_common.c. Its pointer arithmetic is incremental;
 the class invariant ties every field to a direct function of the table prefix, and
 OffsetIsOffsetof shows that this function is the member's place in the C struct.
 */
module Iterator {
  import opened Schema
  import opened Wrappers

  /** The field is what pb_field_iter_find looks for. */
  predicate Matches(f: Field, tag: nat) {
    f.tag == tag && !f.ltype.Extension?
  }

  /** The index `steps` places after `start` on a circular table of n entries. */
  function Around(start: nat, steps: nat, n: nat): (i: nat)
    requires start < n && steps <= n
    ensures i < n
  {
    if start + steps < n then start + steps else start + steps - n
  }

  class FieldIter {
    const fields: Table      // without the terminator
    var pos: nat             // index; |fields| (the terminator) only when the table is empty
    var dataAt: int          // pData - dest_struct
    var sizeAt: int          // pSize - dest_struct
    var requiredIndex: nat

    ghost predicate Valid()
      reads this
    {
      && (forall i :: 0 <= i < |fields| ==> fields[i].tag != 0)
      && if fields == [] then pos == 0 && dataAt == 0 && sizeAt == 0 && requiredIndex == 0
         else
           && pos < |fields|
           && dataAt == Offset(fields, pos)
           && sizeAt == dataAt + fields[pos].sizeOffset
           && requiredIndex == RequiredBefore(fields, pos)
    }

    constructor (fields: Table)
      requires forall i :: 0 <= i < |fields| ==> fields[i].tag != 0
      ensures Valid() && this.fields == fields && pos == 0
    {
      this.fields := fields;
      pos := 0;
      requiredIndex := 0;
      if fields == [] {
        dataAt := 0;
        sizeAt := 0;
      } else {
        dataAt := fields[0].dataOffset;
        sizeAt := fields[0].dataOffset + fields[0].sizeOffset;
      }
    }

    /** pb_field_iter_begin on an iterator that already exists. */
    method Restart() returns (nonEmpty: bool)
      requires Valid()
      modifies this
      ensures Valid() && pos == 0
      ensures nonEmpty == (fields != [])
    {
      pos := 0;
      requiredIndex := 0;
      if fields == [] {
        dataAt := 0;
        sizeAt := 0;
      } else {
        dataAt := fields[0].dataOffset;
        sizeAt := dataAt + fields[0].sizeOffset;
      }
      nonEmpty := fields != [];
    }

    /** pb_field_iter_next: false when it wrapped back to the first field. */
    method Next() returns (more: bool)
      requires Valid()
      modifies this
      ensures Valid()
      ensures more == (old(pos) + 1 < |fields|)
      ensures pos == if fields == [] then 0 else Around(old(pos), 1, |fields|)
    {
      if fields == [] {
        return false;
      }
      var prev := fields[pos];
      pos := pos + 1;
      if pos == |fields| {
        pos := pos - 1;
        var _ := Restart();
        return false;
      }
      var prevSize := prev.dataSize;
      if prev.rule.Oneof? && fields[pos].rule.Oneof? {
        prevSize := 0;
        dataAt := dataAt - prev.dataOffset;
      } else if prev.atype.Static? && prev.rule.Repeated? {
        prevSize := prevSize * prev.arraySize;
      } else if prev.atype.Pointer? {
        prevSize := POINTER_SIZE;
      }
      if prev.rule.Required? {
        requiredIndex := requiredIndex + 1;
      }
      dataAt := dataAt + prevSize + fields[pos].dataOffset;
      sizeAt := dataAt + fields[pos].sizeOffset;
      return true;
    }

    /** pb_field_iter_find: at most one lap, and on success the first match met on it. On
        an empty table the terminator itself answers to tag 0. */
    method Find(tag: nat) returns (found: bool, ghost steps: nat)
      requires Valid()
      modifies this
      ensures Valid()
      ensures fields == [] ==> found == (tag == 0)
      ensures fields != [] ==>
                (found <==> exists i :: 0 <= i < |fields| && Matches(fields[i], tag))
      ensures fields != [] && found ==>
                && steps < |fields|
                && pos == Around(old(pos), steps, |fields|)
                && Matches(fields[pos], tag)
                && forall j :: 0 <= j < steps ==> !Matches(fields[Around(old(pos), j, |fields|)], tag)
      ensures !found ==> pos == old(pos)
    {
      var start := pos;
      steps := 0;
      if fields == [] {
        // one round of the loop: the terminator has tag 0 and type 0
        if tag == 0 {
          return true, 0;
        }
        var _ := Next();
        return false, 1;
      }
      ghost var n := |fields|;
      if Matches(fields[pos], tag) {
        return true, 0;
      }
      var _ := Next();
      steps := 1;
      while pos != start
        invariant Valid()
        invariant 1 <= steps <= n && pos == Around(start, steps, n)
        invariant forall j :: 0 <= j < steps ==> !Matches(fields[Around(start, j, n)], tag)
        decreases n - steps
      {
        if Matches(fields[pos], tag) {
          return true, steps;
        }
        var _ := Next();
        steps := steps + 1;
      }
      forall i | 0 <= i < n
        ensures !Matches(fields[i], tag)
      {
        var j := if i >= start then i - start else i + n - start;
        assert Around(start, j, n) == i;
      }
      return false, steps;
    }

    /** find_extension_field on a table without an extension placeholder: one full lap. */
    method FindExtension() returns (found: bool)
      requires Valid()
      requires forall i :: 0 <= i < |fields| ==> !fields[i].ltype.Extension?
      modifies this
      ensures Valid() && !found && pos == old(pos)
    {
      var start := pos;
      var _ := Next();
      ghost var steps := 1;
      while pos != start
        invariant Valid()
        invariant fields != [] ==> 1 <= steps <= |fields| && pos == Around(start, steps, |fields|)
        invariant fields == [] ==> pos == start
        decreases |fields| - steps
      {
        var _ := Next();
        steps := steps + 1;
      }
      return false;
    }
  }

  // ---------- The offsets are those of the C struct ----------

  /** Where the compiler placed a member, and its size. */
  datatype Member = Member(offset: nat, size: nat)

  /** The descriptors are those the PB_FIELD and PB_ONEOF_FIELD macros compute for this
      layout: the first data_offset is offsetof, later ones are relative to the end of the
      previous member, and all members of a union are relative to what precedes the union. */
  predicate GeneratedFrom(t: Table, ms: seq<Member>) {
    && |t| == |ms|
    && (forall i :: 0 <= i < |t| ==> SizeMatches(t[i], ms[i]))
    && (t != [] ==> t[0].dataOffset == ms[0].offset)
    && (forall i :: 1 <= i < |t| ==> Follows(t[i - 1], t[i], ms[i - 1], ms[i]))
  }

  /** Members of one union share their offset. */
  predicate SameUnion(p: Field, f: Field, a: Member, b: Member) {
    p.rule.Oneof? && f.rule.Oneof? && a.offset == b.offset
  }

  predicate Follows(p: Field, f: Field, a: Member, b: Member) {
    f.dataOffset == if SameUnion(p, f, a, b) then p.dataOffset else b.offset - a.offset - a.size
  }

  predicate SizeMatches(f: Field, m: Member) {
    m.size == if f.atype.Static? && f.rule.Repeated? then f.dataSize * f.arraySize
              else if f.atype.Pointer? then 4
              else f.dataSize
  }

  /** Field j is the first member of a union that directly follows another union (whose own
      descriptor is not all zero). */
  predicate SecondUnion(t: Table, ms: seq<Member>, j: nat)
    requires |t| == |ms| && j < |t|
  {
    j > 0 && t[j - 1].rule.Oneof? && t[j].rule.Oneof? && ms[j - 1].offset != ms[j].offset
    && t[j - 1].dataOffset + ms[j - 1].size > 0
  }

  /** For a generated table the iterator's data pointer is the member itself: regular
      fields, static arrays, pointers and unions alike, up to the first union that directly
      follows another one. */
  lemma {:induction false} OffsetIsOffsetof(t: Table, ms: seq<Member>, i: nat)
    requires GeneratedFrom(t, ms) && i < |t|
    requires forall j :: 0 <= j <= i ==> !SecondUnion(t, ms, j)
    ensures Offset(t, i) == ms[i].offset
    decreases i
  {
    if i > 0 {
      OffsetIsOffsetof(t, ms, i - 1);
      assert Follows(t[i - 1], t[i], ms[i - 1], ms[i]);
      assert SizeMatches(t[i - 1], ms[i - 1]);
      assert !SecondUnion(t, ms, i);
    }
  }

  /** There the pointer is too low: by the size of the previous member and by its
      data_offset, because the iterator goes back to what precedes a union whenever both
      entries are of type ONEOF. */
  lemma SecondUnionMisplaced(t: Table, ms: seq<Member>, j: nat)
    requires GeneratedFrom(t, ms) && j < |t| && SecondUnion(t, ms, j)
    requires forall i :: 0 <= i < j ==> !SecondUnion(t, ms, i)
    ensures Offset(t, j) == ms[j].offset - t[j - 1].dataOffset - ms[j - 1].size < ms[j].offset
  {
    OffsetIsOffsetof(t, ms, j - 1);
    assert Follows(t[j - 1], t[j], ms[j - 1], ms[j]);
  }

  /** The iterator finds every member if and only if no union directly follows another. */
  lemma AllOffsetsIff(t: Table, ms: seq<Member>)
    requires GeneratedFrom(t, ms)
    ensures (forall i :: 0 <= i < |t| ==> Offset(t, i) == ms[i].offset)
       <==> (forall j :: 0 <= j < |t| ==> !SecondUnion(t, ms, j))
  {
    assert |t| == |ms|;
    hide GeneratedFrom, SecondUnion, Offset;
    if forall j :: 0 <= j < |t| ==> !SecondUnion(t, ms, j) {
      forall i | 0 <= i < |t|
        ensures Offset(t, i) == ms[i].offset
      {
        OffsetIsOffsetof(t, ms, i);
      }
    } else {
      var j := FirstSecondUnion(t, ms, 0);
      SecondUnionMisplaced(t, ms, j);
    }
  }

  lemma {:induction false} FirstSecondUnion(t: Table, ms: seq<Member>, i: nat) returns (j: nat)
    requires |t| == |ms| && i <= |t| && exists k :: i <= k < |t| && SecondUnion(t, ms, k)
    requires forall k :: 0 <= k < i ==> !SecondUnion(t, ms, k)
    ensures j < |t| && SecondUnion(t, ms, j) && forall k :: 0 <= k < j ==> !SecondUnion(t, ms, k)
    decreases |t| - i
  {
    hide SecondUnion;
    if SecondUnion(t, ms, i) {
      j := i;
    } else {
      j := FirstSecondUnion(t, ms, i + 1);
    }
  }

  /** Two unions in a row, each of one 4-byte member behind its 4-byte selector: the second
      member is at 12, and the iterator looks at 4. */
  lemma TwoUnions()
    ensures var member := Field(1, Static, Oneof, Scalar(UVarintType), 4, -4, 4, 0, None);
            var t := [member, member.(tag := 2)];
            var ms := [Member(4, 4), Member(12, 4)];
            GeneratedFrom(t, ms) && Offset(t, 1) == 4 < ms[1].offset
  {
  }
}
