/** The kernel's string type: the substring constructor and comparison. */
module KString {

  /** The length the substring constructor copies. Its bounds test adds the two offsets, so it
      also cuts at the end of the string when only their sum exceeds the length. */
  function CopyLength(n: nat, start: nat, end: nat): int {
    if start + end > n then n - start else end - start
  }

  /** The characters from `start` up to `end`, or to the end of the string if that comes first. */
  function Slice(s: string, start: nat, end: nat): string
    requires start <= end && start <= |s|
  {
    if end <= |s| then s[start..end] else s[start..]
  }

  class Buffer {
    const chars: array<char>

    ghost function Text(): string
      reads this, chars
    {
      if chars.Length == 0 then "" else chars[..chars.Length - 1]
    }

    /** The substring constructor: a new buffer one longer than the text, closed by a zero. */
    constructor Substring(s: string, start: nat, end: nat)
      requires start <= end && start <= |s|
      ensures fresh(chars) && chars.Length == CopyLength(|s|, start, end) + 1
      ensures chars[chars.Length - 1] == '\0'
      ensures Text() == s[start..start + CopyLength(|s|, start, end)]
    {
      var length := end - start;
      if start + end > |s| {
        length := |s| - start;
      }
      chars := new char[length + 1];
      new;
      var i := 0;
      while i < length
        invariant 0 <= i <= length
        invariant chars[..i] == s[start..start + i]
      {
        chars[i] := s[start + i];
        i := i + 1;
      }
      chars[length] := '\0';
      assert chars[..length] == s[start..start + length];
    }
  }

  /** The constructor yields the characters asked for exactly when the sum of the offsets stays
      within the string or the end offset reaches the end of the string. */
  lemma SubstringExactly(s: string, start: nat, end: nat)
    requires start <= end && start <= |s|
    ensures s[start..start + CopyLength(|s|, start, end)] == Slice(s, start, end)
      <==> start + end <= |s| || end >= |s|
    ensures start + end > |s| ==> s[start..start + CopyLength(|s|, start, end)] == s[start..]
  {
    var got, want := s[start..start + CopyLength(|s|, start, end)], Slice(s, start, end);
    assert |got| == CopyLength(|s|, start, end);
  }

  lemma SubstringWitness()
    ensures var s := "/mnt/a"; s[2..2 + CopyLength(6, 2, 5)] == "nt/a" && Slice(s, 2, 5) == "nt/"
  {
  }

  /** The comparison loop decides equality. */
  method Equals(a: string, b: string) returns (r: bool)
    ensures r <==> a == b
  {
    if |b| != |a| {
      return false;
    }
    var i := 0;
    while i < |a|
      invariant 0 <= i <= |a|
      invariant a[..i] == b[..i]
    {
      if b[i] != a[i] {
        return false;
      }
      i := i + 1;
    }
    return true;
  }
}
