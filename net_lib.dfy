/**
 * The parts of netlib.h that do not touch the network: the URL prefix test
 * and the in-memory sink that libcurl's write callback fills.
 */
module NetLib {
  import opened Wrappers
  import opened CText

  // ---------------------------------------------------------------------------
  // is_url
  // ---------------------------------------------------------------------------

  /** The byte a C string holds at position k: its character, or the NUL past its end. */
  function CharAt(s: string, k: nat): int {
    if k < |s| then s[k] as int else 0
  }

  /**
   * strncmp: the difference of the first differing characters within the
   * first n, stopping after a NUL that both strings share; 0 if none differ.
   */
  function Strncmp(a: string, b: string, n: nat): int
    decreases n
  {
    if n == 0 then 0
    else if CharAt(a, 0) != CharAt(b, 0) then CharAt(a, 0) - CharAt(b, 0)
    else if CharAt(a, 0) == 0 then 0
    else Strncmp(a[1..], b[1..], n - 1)
  }

  predicate StartsWith(s: string, prefix: string) {
    |prefix| <= |s| && s[..|prefix|] == prefix
  }

  /**
   * For a pattern of exactly n characters none of them NUL, strncmp over n
   * characters is 0 exactly when the string starts with the pattern.
   */
  lemma {:induction false} StrncmpIsPrefixTest(s: string, pattern: string, n: nat)
    requires |pattern| == n && forall k | 0 <= k < n :: pattern[k] != '\0'
    requires forall k | 0 <= k < |s| :: s[k] != '\0'
    ensures Strncmp(s, pattern, n) == 0 <==> StartsWith(s, pattern)
    decreases n
  {
    if n > 0 && |s| > 0 {
      StrncmpIsPrefixTest(s[1..], pattern[1..], n - 1);
      if s[0] == pattern[0] {
        assert StartsWith(s, pattern) <==> StartsWith(s[1..], pattern[1..]) by {
          if StartsWith(s[1..], pattern[1..]) {
            assert s[..|pattern|] == [s[0]] + s[1..][..|pattern| - 1];
            assert pattern == [pattern[0]] + pattern[1..];
          }
          if StartsWith(s, pattern) {
            assert s[1..][..|pattern| - 1] == s[..|pattern|][1..];
          }
        }
      } else if |pattern| <= |s| {
        assert s[..|pattern|][0] == s[0];
      }
    }
  }

  /**
   * Whatever the string holds, strncmp over the n characters of a pattern
   * free of NUL is 0 only when the string starts with the pattern.
   */
  lemma {:induction false} StrncmpZeroStartsWith(s: string, pattern: string, n: nat)
    requires |pattern| == n && forall k | 0 <= k < n :: pattern[k] != '\0'
    requires Strncmp(s, pattern, n) == 0
    ensures StartsWith(s, pattern)
    decreases n
  {
    if n > 0 {
      assert CharAt(s, 0) == pattern[0] as int != 0;
      StrncmpZeroStartsWith(s[1..], pattern[1..], n - 1);
      assert s[..|pattern|] == [s[0]] + s[1..][..|pattern| - 1];
      assert pattern == [pattern[0]] + pattern[1..];
    }
  }

  /** The two schemes is_url accepts. */
  const HttpScheme: string := "http://"
  const HttpsScheme: string := "https://"

  /** is_url (netlib.h:2-5), over the text of a C string: a URL starts with "http://" or "https://". */
  function IsUrl(path: string): (r: bool)
    ensures r ==> StartsWith(path, "http://") || StartsWith(path, "https://")
  {
    if Strncmp(path, HttpScheme, |HttpScheme|) == 0 then
      StrncmpZeroStartsWith(path, HttpScheme, |HttpScheme|);
      true
    else if Strncmp(path, HttpsScheme, |HttpsScheme|) == 0 then
      StrncmpZeroStartsWith(path, HttpsScheme, |HttpsScheme|);
      true
    else false
  }

  /** A path is a URL exactly when it begins with "http://" or "https://", case and all. */
  lemma IsUrlMeansScheme(path: string)
    requires forall k | 0 <= k < |path| :: path[k] != '\0'
    ensures IsUrl(path) <==> StartsWith(path, "http://") || StartsWith(path, "https://")
  {
    StrncmpIsPrefixTest(path, "http://", 7);
    StrncmpIsPrefixTest(path, "https://", 8);
  }

  // ---------------------------------------------------------------------------
  // MemoryBuffer
  // ---------------------------------------------------------------------------

  /**
   * The MemoryBuffer struct: `data` is the heap block (None for NULL), of
   * which the first `size` bytes are the downloaded content.
   */
  class MemoryBuffer {
    var data: Option<seq<byte>>
    var size: nat

    /** The block holds the content followed by its NUL terminator. */
    ghost predicate Valid()
      reads this
    {
      data.Some? && |data.value| == size + 1 && data.value[size] == 0
    }

    /** The bytes downloaded so far. */
    function Contents(): seq<byte>
      reads this
      requires Valid()
    {
      data.value[..size]
    }

    constructor ()
      ensures data.None? && size == 0
    {
      data, size := None, 0;
    }

    /**
     * init_memory_buffer (netlib.h:35-44): a one-byte block holding "" and
     * size 0, status 0; or status -1 with a NULL block when `malloc`
     * fails, which the caller says through allocationSucceeds.
     */
    method Init(allocationSucceeds: bool) returns (status: int)
      modifies this
      ensures allocationSucceeds ==> status == 0 && Valid() && Contents() == []
      ensures !allocationSucceeds ==> status == -1 && data.None? && size == old(size)
    {
      if !allocationSucceeds {
        data := None;
        return -1;
      }
      data := Some([0]);
      size := 0;
      status := 0;
    }

    /**
     * write_memory_callback (netlib.h:14-32): grow the block to hold
     * elementSize * count more bytes, copy them after the content, and
     * terminate. When `realloc` fails (reallocationSucceeds false) it
     * reports 0 and leaves the buffer as it was.
     */
    method Write(contents: seq<byte>, elementSize: nat, count: nat, reallocationSucceeds: bool)
        returns (written: nat)
      requires Valid() && elementSize * count <= |contents|
      modifies this
      ensures Valid()
      ensures reallocationSucceeds ==> written == elementSize * count
      ensures reallocationSucceeds ==> Contents() == old(Contents()) + contents[..elementSize * count]
      ensures !reallocationSucceeds ==> written == 0 && data == old(data) && size == old(size)
    {
      var total := elementSize * count;
      if !reallocationSucceeds {
        return 0;
      }
      // realloc keeps the block and grows it; the new bytes are all overwritten below
      var block := data.value[..size + 1] + seq(total, _ => 0);
      block := block[..size] + contents[..total] + [0];
      data := Some(block);
      size := size + total;
      written := total;
    }
  }
}
