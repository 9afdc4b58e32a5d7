/**
 * The ownership lifecycle of the biharmonic block preconditioners
 * (biharmonic_preconditioner.h): the constructors null the owned
 * pointers, pick the default strategy and register the block lookup with
 * the master, and clean_up_memory deletes the owned objects.
 *
 * A pointer is Null or refers to an object by identity. Each class keeps
 * a ghost log of the objects it has deleted, so that "deleted twice" can
 * be stated: an object is deleted twice exactly when its identity occurs
 * twice in the log.
 */
module BiharmonicPreconditioners {
  import opened Wrappers

  datatype Ptr = Null | Obj(id: nat)

  /** The identities of the non-null pointers, in order (what a run of deletes frees). */
  function Ids(ps: seq<Ptr>): (r: seq<nat>)
    ensures |r| <= |ps|
    ensures forall x :: x in r <==> Obj(x) in ps
    decreases |ps|
  {
    if ps == [] then []
    else Ids(ps[..|ps| - 1]) + (if ps[|ps| - 1].Obj? then [ps[|ps| - 1].id] else [])
  }

  /** Deleting the pointers of a concatenation deletes those of each part in turn. */
  lemma {:induction false} IdsAppend(a: seq<Ptr>, b: seq<Ptr>)
    ensures Ids(a + b) == Ids(a) + Ids(b)
    decreases |b|
  {
    if b == [] {
      assert a + b == a;
    } else {
      IdsAppend(a, b[..|b| - 1]);
      assert (a + b)[..|a + b| - 1] == a + b[..|b| - 1];
    }
  }

  /** Extending a prefix by one pointer deletes that pointer's object, if any. */
  lemma IdsSnoc(ps: seq<Ptr>, j: nat)
    requires j < |ps|
    ensures Ids(ps[..j + 1]) == Ids(ps[..j]) + (if ps[j].Obj? then [ps[j].id] else [])
  {
    assert ps[..j + 1][..j] == ps[..j];
  }

  /** Deleting three pointers one after the other. */
  lemma IdsOfThree(a: Ptr, b: Ptr, c: Ptr)
    ensures Ids([a, b, c]) == Ids([a]) + Ids([b]) + Ids([c])
  {
    IdsAppend([a], [b]);
    assert [a] + [b] == [a, b];
    IdsAppend([a, b], [c]);
    assert [a, b] + [c] == [a, b, c];
  }

  /** Pointers that are all null own nothing, whatever has been deleted before. */
  lemma NullPointersOwnNothing(ptrs: seq<Ptr>, deleted: seq<nat>)
    requires Ids(ptrs) == [] && NoRepeats(deleted)
    ensures Owns(ptrs, deleted)
  {
  }

  predicate NoRepeats(xs: seq<nat>) {
    forall i, j :: 0 <= i < j < |xs| ==> xs[i] != xs[j]
  }

  /**
   * The pointers own their objects: no object has been deleted twice, no
   * two pointers share an object, and no live pointer refers to a deleted
   * object.
   */
  predicate Owns(ptrs: seq<Ptr>, deleted: seq<nat>) {
    && NoRepeats(deleted)
    && NoRepeats(Ids(ptrs))
    && forall x :: x in Ids(ptrs) ==> x !in deleted
  }

  /** Deleting everything a set of owning pointers refers to deletes nothing twice. */
  lemma ReleaseDeletesOnce(ptrs: seq<Ptr>, deleted: seq<nat>)
    requires Owns(ptrs, deleted)
    ensures NoRepeats(deleted + Ids(ptrs))
  {
    var log := deleted + Ids(ptrs);
    forall i, j | 0 <= i < j < |log|
      ensures log[i] != log[j]
    {
      if j >= |deleted| && i < |deleted| {
        assert log[j] in Ids(ptrs);
        assert log[i] in deleted;
      }
    }
  }

  /**
   * After the objects are deleted, the pointers own them again only if
   * there were none: once a non-null pointer is released, deleting through
   * it a second time deletes the same object twice.
   */
  lemma ReleasedPointersDangle(ptrs: seq<Ptr>, deleted: seq<nat>)
    requires Owns(ptrs, deleted)
    ensures Owns(ptrs, deleted + Ids(ptrs)) <==> Ids(ptrs) == []
    ensures NoRepeats(deleted + Ids(ptrs))
    ensures Ids(ptrs) != [] ==> !NoRepeats(deleted + Ids(ptrs) + Ids(ptrs))
  {
    ReleaseDeletesOnce(ptrs, deleted);
    if Ids(ptrs) != [] {
      var x := Ids(ptrs)[0];
      assert x in deleted + Ids(ptrs);
      var log := deleted + Ids(ptrs) + Ids(ptrs);
      assert log[|deleted|] == x && log[|deleted| + |Ids(ptrs)|] == x;
    }
  }

  /** The strategies documented for Preconditioner_type. */
  datatype PreconditionerKind = ExactBBD | InexactSuperLU | InexactAMG | BlockDiagonal

  /** The documented meaning of a Preconditioner_type value; other values have none. */
  function KindOf(t: nat): (k: Option<PreconditionerKind>)
    ensures k.Some? <==> t < 4
  {
    if t == 0 then Some(ExactBBD)
    else if t == 1 then Some(InexactSuperLU)
    else if t == 2 then Some(InexactAMG)
    else if t == 3 then Some(BlockDiagonal)
    else None
  }

  /** The default type: inexact, with AMG exactly when HYPRE is available. */
  function DefaultPreconditionerType(hasHypre: bool): (t: nat)
    ensures KindOf(t) == Some(if hasHypre then InexactAMG else InexactSuperLU)
  {
    if hasHypre then 2 else 1
  }

  class BiharmonicPreconditioner {
    var preconditionerType: nat
    var subPreconditioner1: Ptr
    var subPreconditioner2: Ptr
    var hijackedSubBlockPreconditioner: Ptr
    var nmesh: nat
    var bulkElementMesh: Ptr
    ghost var deleted: seq<nat>

    ghost function Owned(): seq<Ptr>
      reads this
    {
      [subPreconditioner1, subPreconditioner2, hijackedSubBlockPreconditioner]
    }

    ghost predicate Valid()
      reads this
    {
      Owns(Owned(), deleted)
    }

    /** The three sub-preconditioners and the bulk mesh start null; one mesh slot is reserved. */
    constructor (hasHypre: bool)
      ensures Valid()
      ensures subPreconditioner1 == Null && subPreconditioner2 == Null && hijackedSubBlockPreconditioner == Null
      ensures preconditionerType == DefaultPreconditionerType(hasHypre)
      ensures nmesh == 1 && bulkElementMesh == Null
      ensures deleted == []
    {
      subPreconditioner1 := Null;
      subPreconditioner2 := Null;
      hijackedSubBlockPreconditioner := Null;
      preconditionerType := if hasHypre then 2 else 1;
      nmesh := 1;
      bulkElementMesh := Null;
      deleted := [];
    }

    /**
     * Delete the three sub-preconditioners. The pointers are not nulled,
     * so the object is valid afterwards only if they were all null: a
     * second call (the destructor calls this one) would delete the same
     * objects again.
     */
    method CleanUpMemory()
      requires Valid()
      modifies this
      ensures deleted == old(deleted) + Ids(old(Owned()))
      ensures NoRepeats(deleted)
      ensures Owned() == old(Owned())
      ensures preconditionerType == old(preconditionerType) && nmesh == old(nmesh)
      ensures bulkElementMesh == old(bulkElementMesh)
      ensures Valid() <==> Ids(Owned()) == []
    {
      ReleasedPointersDangle(Owned(), deleted);
      deleted := deleted + Ids(Owned());
    }

    /** The preconditioner_type accessor, read. */
    method PreconditionerType() returns (t: nat)
      ensures t == preconditionerType
    {
      t := preconditionerType;
    }

    /** The preconditioner_type accessor, written through the returned reference. */
    method SetPreconditionerType(t: nat)
      modifies this
      ensures preconditionerType == t
      ensures Owned() == old(Owned()) && deleted == old(deleted)
      ensures nmesh == old(nmesh) && bulkElementMesh == old(bulkElementMesh)
    {
      preconditionerType := t;
    }
  }

  /** The block lookup both sub-preconditioners register: blocks 0, 1, 2 of the master, in order. */
  const SubBlockLookup: seq<nat> := [0, 1, 2]

  /** The sub-preconditioners act on the top-left 3x3 corner: the lookup is the identity on it. */
  lemma SubBlockLookupIsIdentity()
    ensures |SubBlockLookup| == 3
    ensures forall i :: 0 <= i < |SubBlockLookup| ==> SubBlockLookup[i] == i
  {
  }

  class ExactSubBiharmonicPreconditioner {
    const master: BiharmonicPreconditioner
    const blockLookup: seq<nat>
    const retainAllBlocks: bool
    var subPreconditioner: Ptr
    ghost var deleted: seq<nat>

    ghost predicate Valid()
      reads this
    {
      Owns([subPreconditioner], deleted)
    }

    constructor (master: BiharmonicPreconditioner, retainAllBlocks: bool := false)
      ensures Valid()
      ensures this.master == master && blockLookup == SubBlockLookup
      ensures this.retainAllBlocks == retainAllBlocks
      ensures subPreconditioner == Null && deleted == []
    {
      this.master := master;
      this.retainAllBlocks := retainAllBlocks;
      blockLookup := [0, 1, 2];
      subPreconditioner := Null;
      deleted := [];
    }

    /** Delete the sub-preconditioner and null the pointer, so that a repeated call deletes nothing. */
    method CleanUpMemory()
      requires Valid()
      modifies this
      ensures deleted == old(deleted) + Ids([old(subPreconditioner)])
      ensures subPreconditioner == Null
      ensures Valid()
    {
      ReleaseDeletesOnce([subPreconditioner], deleted);
      deleted := deleted + Ids([subPreconditioner]);
      subPreconditioner := Null;
    }
  }

  /** The rows of a matrix of pointers, concatenated (row-major order). */
  function Flatten(rows: seq<seq<Ptr>>): (r: seq<Ptr>)
    ensures forall p :: p in r <==> exists i :: 0 <= i < |rows| && p in rows[i]
    decreases |rows|
  {
    if rows == [] then []
    else Flatten(rows[..|rows| - 1]) + rows[|rows| - 1]
  }

  /** A matrix whose entries are all null owns nothing. */
  lemma NullGridOwnsNothing(g: seq<seq<Ptr>>)
    requires forall i, j :: 0 <= i < |g| && 0 <= j < |g[i]| ==> g[i][j] == Null
    ensures Ids(Flatten(g)) == []
  {
    if Ids(Flatten(g)) != [] {
      var x := Ids(Flatten(g))[0];
      assert Obj(x) in Flatten(g);
      var i :| 0 <= i < |g| && Obj(x) in g[i];
    }
  }

  class InexactSubBiharmonicPreconditioner {
    const master: BiharmonicPreconditioner
    const blockLookup: seq<nat>
    var useAmg: nat
    var s00Preconditioner: Ptr
    var lumpedJ11Preconditioner: Ptr
    var lumpedJ22Preconditioner: Ptr
    /** Matrix_of_block_pointers. */
    var blocks: array2<Ptr>
    ghost var deleted: seq<nat>

    /** The matrix of block pointers as rows. */
    ghost function Grid(): (g: seq<seq<Ptr>>)
      reads this, blocks
      ensures |g| == blocks.Length0
      ensures forall i :: 0 <= i < |g| ==> |g[i]| == blocks.Length1
      ensures forall i, j :: 0 <= i < blocks.Length0 && 0 <= j < blocks.Length1 ==> g[i][j] == blocks[i, j]
    {
      var m := blocks;
      seq(m.Length0, i requires 0 <= i < m.Length0 reads m =>
        seq(m.Length1, j requires 0 <= j < m.Length1 reads m => m[i, j]))
    }

    ghost function Owned(): seq<Ptr>
      reads this, blocks
    {
      [s00Preconditioner, lumpedJ11Preconditioner, lumpedJ22Preconditioner] + Flatten(Grid())
    }

    /** The matrix of block pointers is square (nblock x nblock) and owns its entries. */
    ghost predicate Valid()
      reads this, blocks
    {
      blocks.Length0 == blocks.Length1 && Owns(Owned(), deleted)
    }

    constructor (master: BiharmonicPreconditioner, useAmg: bool)
      ensures Valid() && fresh(blocks)
      ensures this.master == master && blockLookup == SubBlockLookup
      ensures this.useAmg == if useAmg then 1 else 0
      ensures s00Preconditioner == Null && lumpedJ11Preconditioner == Null && lumpedJ22Preconditioner == Null
      ensures blocks.Length0 == 0 && deleted == []
    {
      this.master := master;
      blockLookup := [0, 1, 2];
      s00Preconditioner := Null;
      lumpedJ11Preconditioner := Null;
      lumpedJ22Preconditioner := Null;
      this.useAmg := if useAmg then 1 else 0;
      blocks := new Ptr[0, 0];
      deleted := [];
      new;
      assert Grid() == [];
    }

    /**
     * Delete and null the three preconditioners and every non-null block
     * matrix, row by row. Everything is null afterwards, so a repeated
     * call deletes nothing.
     */
    method CleanUpMemory()
      requires Valid()
      modifies this, blocks
      ensures blocks == old(blocks)
      ensures deleted == old(deleted) + Ids(old(Owned()))
      ensures s00Preconditioner == Null && lumpedJ11Preconditioner == Null && lumpedJ22Preconditioner == Null
      ensures forall i, j :: 0 <= i < blocks.Length0 && 0 <= j < blocks.Length1 ==> blocks[i, j] == Null
      ensures useAmg == old(useAmg)
      ensures Valid()
    {
      ghost var three := [s00Preconditioner, lumpedJ11Preconditioner, lumpedJ22Preconditioner];
      ghost var grid := Grid();
      ghost var d0 := deleted;
      ReleaseDeletesOnce(three + Flatten(grid), d0);
      IdsAppend(three, Flatten(grid));

      DeletePreconditioners();
      DeleteBlocks(grid);
      assert deleted == d0 + Ids(three + Flatten(grid));

      ghost var after := Grid();
      NullGridOwnsNothing(after);
      IdsAppend([Null, Null, Null], Flatten(after));
      assert Ids([Null, Null, Null]) == [];
      NullPointersOwnNothing([Null, Null, Null] + Flatten(after), deleted);
    }

    /** Delete and null the Schur-complement and the two lumped preconditioners, in that order. */
    method DeletePreconditioners()
      modifies this`deleted, this`s00Preconditioner, this`lumpedJ11Preconditioner, this`lumpedJ22Preconditioner
      ensures deleted == old(deleted) + Ids([old(s00Preconditioner), old(lumpedJ11Preconditioner), old(lumpedJ22Preconditioner)])
      ensures s00Preconditioner == Null && lumpedJ11Preconditioner == Null && lumpedJ22Preconditioner == Null
    {
      ghost var start := deleted;
      ghost var a, b, c := s00Preconditioner, lumpedJ11Preconditioner, lumpedJ22Preconditioner;
      deleted := deleted + Ids([s00Preconditioner]);
      s00Preconditioner := Null;
      deleted := deleted + Ids([lumpedJ11Preconditioner]);
      lumpedJ11Preconditioner := Null;
      deleted := deleted + Ids([lumpedJ22Preconditioner]);
      lumpedJ22Preconditioner := Null;
      IdsOfThree(a, b, c);
      assert deleted == start + (Ids([a]) + Ids([b]) + Ids([c]));
    }

    /** The nested loop over Matrix_of_block_pointers: delete and null every non-null entry. */
    method DeleteBlocks(ghost grid: seq<seq<Ptr>>)
      requires blocks.Length0 == blocks.Length1
      requires |grid| == blocks.Length0 && forall r :: 0 <= r < |grid| ==> |grid[r]| == blocks.Length1
      requires forall r, c :: 0 <= r < blocks.Length0 && 0 <= c < blocks.Length1 ==> blocks[r, c] == grid[r][c]
      modifies this`deleted, blocks
      ensures deleted == old(deleted) + Ids(Flatten(grid))
      ensures forall i, j :: 0 <= i < blocks.Length0 && 0 <= j < blocks.Length1 ==> blocks[i, j] == Null
    {
      ghost var start := deleted;
      var n := blocks.Length0;
      var i := 0;
      while i < n
        invariant 0 <= i <= n
        invariant deleted == start + Ids(Flatten(grid[..i]))
        invariant forall r, c :: 0 <= r < n && 0 <= c < n ==> blocks[r, c] == if r < i then Null else grid[r][c]
      {
        DeleteBlockRow(i, grid[i]);
        assert grid[..i + 1][..i] == grid[..i];
        IdsAppend(Flatten(grid[..i]), grid[i]);
        i := i + 1;
      }
      assert grid[..n] == grid;
    }

    /** The inner loop: delete and null the non-null entries of row i. */
    method DeleteBlockRow(i: nat, ghost row: seq<Ptr>)
      requires i < blocks.Length0 && |row| == blocks.Length1
      requires forall c :: 0 <= c < blocks.Length1 ==> blocks[i, c] == row[c]
      modifies this`deleted, blocks
      ensures deleted == old(deleted) + Ids(row)
      ensures forall r, c :: 0 <= r < blocks.Length0 && 0 <= c < blocks.Length1 ==>
        blocks[r, c] == if r == i then Null else old(blocks[r, c])
    {
      var m := blocks;
      ghost var start := deleted;
      var n := m.Length1;
      var j := 0;
      while j < n
        invariant 0 <= j <= n
        invariant deleted == start + Ids(row[..j])
        invariant forall r, c :: 0 <= r < m.Length0 && 0 <= c < n ==>
          m[r, c] == if r == i && c < j then Null else old(m[r, c])
      {
        if m[i, j] != Null {
          deleted := deleted + [m[i, j].id];
          m[i, j] := Null;
        }
        IdsSnoc(row, j);
        j := j + 1;
      }
      assert row[..n] == row;
    }
  }
}
