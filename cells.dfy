/// An S-expression or Q-expression `lval` whose `cell` array the evaluator
/// and the builtins reshape in place: `lval_add`, `lval_add_front`,
/// `lval_pop`, `lval_take` and `lval_join`.
module Cells {
  import opened Values

  /** The `type` field of a container `lval`, which `builtin_list` and
      `builtin_eval` overwrite. */
  datatype Tag = STag | QTag

  class Expr {
    var tag: Tag
    /** The `cell` array; slots at and beyond `count` are unused storage. */
    var cell: array<Value>
    var count: nat

    ghost predicate Valid()
      reads this
    {
      count <= cell.Length
    }

    /** The children, in order. */
    function Contents(): seq<Value>
      reads this, cell
      requires Valid()
    {
      cell[..count]
    }

    /** The container read back as a value of the kind its tag names. */
    function AsValue(): (v: Value)
      reads this, cell
      requires Valid()
      ensures v.SExpr? <==> tag == STag
      ensures v.SExpr? || v.QExpr?
      ensures v.cells == Contents()
    {
      if tag == STag then SExpr(Contents()) else QExpr(Contents())
    }

    /** A container holding `cs`: `lval_sexpr`/`lval_qexpr` followed by the
        children the reader added. */
    constructor FromCells(t: Tag, cs: seq<Value>)
      ensures Valid() && fresh(cell)
      ensures tag == t && Contents() == cs
    {
      tag := t;
      cell := new Value[|cs|](i requires 0 <= i < |cs| => cs[i]);
      count := |cs|;
    }

    /** The `realloc` that makes room for one more cell, keeping the
        children. */
    method Grow()
      requires Valid()
      modifies this
      ensures Valid() && count < cell.Length && fresh(cell)
      ensures tag == old(tag) && count == old(count) && Contents() == old(Contents())
    {
      var bigger := new Value[count + 1];
      for j := 0 to count
        modifies bigger
        invariant bigger[..j] == cell[..j]
      {
        bigger[j] := cell[j];
      }
      assert bigger[..count] == cell[..count];
      cell := bigger;
    }

    /** `lval_add`: appends `x` after the last child. */
    method Add(x: Value)
      requires Valid()
      modifies this, cell
      ensures Valid() && (cell == old(cell) || fresh(cell))
      ensures tag == old(tag) && count == old(count) + 1
      ensures Contents() == old(Contents()) + [x]
    {
      if count == cell.Length {
        Grow();
      }
      cell[count] := x;
      count := count + 1;
    }

    /** `lval_add_front`: shifts every child one slot up, as the `memmove`
        does, and stores `x` at index 0. */
    method AddFront(x: Value)
      requires Valid()
      modifies this, cell
      ensures Valid() && (cell == old(cell) || fresh(cell))
      ensures tag == old(tag) && count == old(count) + 1
      ensures Contents() == [x] + old(Contents())
    {
      if count == cell.Length {
        Grow();
      }
      ghost var cs := cell[..count];
      ShiftUp();
      cell[0] := x;
      count := count + 1;
      assert forall k :: 1 <= k < count ==> cell[k] == cs[k - 1];
      assert cell[..count] == [x] + cs;
    }

    /** The `memmove` of `lval_add_front`: every child moves one slot up,
        the last one into the spare slot at index `count`. */
    method ShiftUp()
      requires Valid() && count < cell.Length
      modifies cell
      ensures cell[0] == old(cell[0])
      ensures forall k :: 0 < k <= count ==> cell[k] == old(cell[k - 1])
    {
      var j := count;
      while j > 0
        invariant 0 <= j <= count
        invariant cell[0] == old(cell[0])
        invariant forall k :: 0 <= k < j ==> cell[k] == old(cell[k])
        invariant forall k :: j < k <= count ==> cell[k] == old(cell[k - 1])
      {
        cell[j] := cell[j - 1];
        j := j - 1;
      }
    }

    /** `lval_pop`: removes the child at index `i`, shifting the later ones
        down by one slot, and returns it. */
    method Pop(i: nat) returns (x: Value)
      requires Valid() && i < count
      modifies this, cell
      ensures Valid() && cell == old(cell)
      ensures tag == old(tag) && count == old(count) - 1
      ensures x == old(Contents())[i]
      ensures Contents() == old(Contents())[..i] + old(Contents())[i + 1..]
    {
      ghost var cs := cell[..count];
      x := cell[i];
      for j := i to count - 1
        modifies cell
        invariant forall k :: 0 <= k < i ==> cell[k] == cs[k]
        invariant forall k :: i <= k < j ==> cell[k] == cs[k + 1]
        invariant forall k :: j <= k < count ==> cell[k] == cs[k]
      {
        cell[j] := cell[j + 1];
      }
      count := count - 1;
      assert forall k :: 0 <= k < count ==> cell[..count][k] == (cs[..i] + cs[i + 1..])[k];
    }

    /** `lval_take`: pops the child at index `i`; the caller discards the
        rest of the container. */
    method Take(i: nat) returns (x: Value)
      requires Valid() && i < count
      modifies this, cell
      ensures x == old(Contents())[i]
    {
      x := Pop(i);
    }

    /** `lval_join(this, y)`: moves the children of `y`, front first, onto
        the end of this container, leaving `y` empty. */
    method Join(y: Expr)
      requires Valid() && y.Valid() && y != this && y.cell != cell
      modifies this, cell, y, y.cell
      ensures Valid() && (cell == old(cell) || fresh(cell))
      ensures tag == old(tag)
      ensures Contents() == old(Contents()) + old(y.Contents())
    {
      while y.count > 0
        invariant Valid() && y.Valid() && y.cell == old(y.cell) && y.cell != cell
        invariant cell == old(cell) || fresh(cell)
        invariant tag == old(tag)
        invariant Contents() + y.Contents() == old(Contents()) + old(y.Contents())
        decreases y.count
      {
        MoveFirst(y);
      }
    }

    /** One step of `lval_join`: `lval_add(this, lval_pop(y, 0))`. */
    method MoveFirst(y: Expr)
      requires Valid() && y.Valid() && y != this && y.cell != cell && y.count > 0
      modifies this, cell, y, y.cell
      ensures Valid() && y.Valid() && y.cell == old(y.cell) && y.cell != cell
      ensures cell == old(cell) || fresh(cell)
      ensures tag == old(tag) && y.count == old(y.count) - 1
      ensures Contents() + y.Contents() == old(Contents()) + old(y.Contents())
    {
      var c := y.Pop(0);
      Add(c);
    }
  }
}
