/**
 * The per-line memory arena of malcrepl.c (malcrepl.c:176-233): a linked
 * list of heap blocks, newest first, that is freed all at once.
 *
 * The list is the sequence `blocks` (head first). Blocks are zero-filled
 * `char` arrays, as `calloc` returns them.
 */
module MemoryArena {
  import opened CText

  class Arena {
    var blocks: seq<array<char>>

    /** `= {0}`: no blocks. */
    constructor ()
      ensures blocks == []
    {
      blocks := [];
    }

    /**
     * arena_reset (malcrepl.c:189-198): free every block and leave head NULL.
     * Freeing is not modelled; the blocks simply leave the list.
     */
    method Reset()
      modifies this
      ensures blocks == []
    {
      blocks := [];
    }

    /**
     * arena_alloc (malcrepl.c:200-224): NULL and no new block for size 0;
     * otherwise a fresh zero-filled block of `size` characters, linked in
     * front of the others.
     */
    method Alloc(size: nat) returns (mem: array?<char>)
      modifies this
      ensures size == 0 ==> mem == null && blocks == old(blocks)
      ensures size > 0 ==> mem != null && fresh(mem) && mem.Length == size
      ensures size > 0 ==> (forall k | 0 <= k < size :: mem[k] == '\0') && blocks == [mem] + old(blocks)
    {
      if size == 0 {
        return null;
      }
      mem := new char[size](_ => '\0');
      blocks := [mem] + blocks;
    }

    /**
     * arena_strdup (malcrepl.c:226-233): a new block of strlen + 1
     * characters holding the string and its terminator.
     */
    method Strdup(s: CString) returns (copy: array<char>)
      modifies this
      ensures fresh(copy) && copy[..] == s + ['\0']
      ensures blocks == [copy] + old(blocks)
    {
      var mem := Alloc(|s| + 1);
      forall k | 0 <= k < |s| {
        mem[k] := s[k];
      }
      mem[|s|] := '\0';
      copy := mem;
    }
  }
}
