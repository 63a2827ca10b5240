/** C strings in buffers, and the two libc readers the recovery sources rely on. */
module CString {

  function Min(a: nat, b: nat): nat { if a <= b then a else b }

  const NUL: char := '\0'

  /** Position of the first `c`, or the length when there is none (strchr, strlen). */
  function IndexOf(s: seq<char>, c: char): (i: nat)
    ensures i <= |s|
    ensures i < |s| ==> s[i] == c
    ensures forall k :: 0 <= k < i ==> s[k] != c
  {
    if s == [] || s[0] == c then 0 else 1 + IndexOf(s[1..], c)
  }

  lemma IndexOfUnique(s: seq<char>, c: char, i: nat)
    requires i <= |s|
    requires i < |s| ==> s[i] == c
    requires forall k :: 0 <= k < i ==> s[k] != c
    ensures IndexOf(s, c) == i
  {
  }

  /** What string functions see of a buffer: everything before the first NUL. */
  function CStr(buf: seq<char>): (s: string)
    ensures NUL !in s
  {
    buf[..IndexOf(buf, NUL)]
  }

  lemma CStrWhole(buf: seq<char>)
    requires NUL !in buf
    ensures CStr(buf) == buf
  {
    IndexOfUnique(buf, NUL, |buf|);
  }

  /**
   How many characters `fgets(buf, size, f)` takes off the rest of the file: up to and
   including a newline, at most size - 1.
   */
  function FgetsLength(text: seq<char>, size: nat): (n: nat)
    requires text != [] && size >= 2
    ensures 0 < n <= |text| && n <= size - 1
    ensures '\n' !in text[..n - 1]
    ensures n == |text| || n == size - 1 || text[n - 1] == '\n'
  {
    var eol := IndexOf(text, '\n');
    var line := if eol < |text| then eol + 1 else |text|;
    if line <= size - 1 then line else size - 1
  }

  lemma FgetsLengthUnique(text: seq<char>, size: nat, n: nat)
    requires text != [] && size >= 2
    requires 0 < n <= |text| && n <= size - 1
    requires '\n' !in text[..n - 1]
    requires n == |text| || n == size - 1 || text[n - 1] == '\n'
    ensures FgetsLength(text, size) == n
  {
    var m := FgetsLength(text, size);
    assert forall k :: 0 <= k < m - 1 ==> text[..m - 1][k] == text[k] != '\n';
    assert forall k :: 0 <= k < n - 1 ==> text[..n - 1][k] == text[k] != '\n';
  }
}
