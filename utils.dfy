/** The free functions of namespace Utils (include/libdbc/utils/utils.hpp):
    the two trim overloads, isWhitespaceOrEmpty and swapEndianness.
    Strings are sequences of characters; a value of fixed width is the
    sequence of its bytes in memory order. */
module Utils {

  /** The characters std::isspace accepts in the "C" locale:
      space, tab, line feed, vertical tab, form feed, carriage return. */
  const Whitespace: seq<char> := [' ', '\t', '\n', '\U{000B}', '\U{000C}', '\r']

  /** Every character of `s` from index `lo` up to `hi` is one of `cs`. */
  predicate AllInRange(s: seq<char>, cs: seq<char>, lo: nat, hi: nat)
    requires lo <= hi <= |s|
  {
    forall i :: lo <= i < hi ==> s[i] in cs
  }

  // ---------------------------------------------------------------------
  // isWhitespaceOrEmpty
  // ---------------------------------------------------------------------

  /** std::all_of over the string with std::isspace: true exactly when
      every character is whitespace, hence true for the empty string. */
  function IsWhitespaceOrEmpty(s: seq<char>): (b: bool)
    ensures b <==> AllInRange(s, Whitespace, 0, |s|)
  {
    if |s| == 0 then true
    else s[0] in Whitespace && IsWhitespaceOrEmpty(s[1..])
  }

  /** "" and "   \t" are blank; " a " is not. */
  lemma BlankExamples()
    ensures IsWhitespaceOrEmpty("")
    ensures IsWhitespaceOrEmpty("   \t")
    ensures !IsWhitespaceOrEmpty(" a ")
  {
    assert " a "[1] == 'a';
  }

  // ---------------------------------------------------------------------
  // trim: specification
  // ---------------------------------------------------------------------

  /** Where std::find_if, searching forward for a character not in `cs`,
      stops: the length of the longest prefix made of characters of `cs`. */
  function FirstKept(s: seq<char>, cs: seq<char>): (k: nat)
    ensures k <= |s|
    ensures AllInRange(s, cs, 0, k)
    ensures k < |s| ==> s[k] !in cs
  {
    if |s| == 0 || s[0] !in cs then 0
    else
      var k' := FirstKept(s[1..], cs);
      assert forall i :: 1 <= i < 1 + k' ==> s[i] == s[1..][i - 1];
      1 + k'
  }

  /** The `.base()` of the reverse iterator std::find_if returns when it
      searches backward for a character not in `cs`: the start of the
      longest suffix made of characters of `cs`. */
  function KeptEnd(s: seq<char>, cs: seq<char>): (j: nat)
    ensures j <= |s|
    ensures AllInRange(s, cs, j, |s|)
    ensures 0 < j ==> s[j - 1] !in cs
  {
    if |s| == 0 || s[|s| - 1] !in cs then |s|
    else
      var j' := KeptEnd(s[..|s| - 1], cs);
      assert forall i :: j' <= i < |s| - 1 ==> s[i] == s[..|s| - 1][i];
      j'
  }

  /** The value `trim(value, trimChars)` returns: the prefix up to the
      first kept character is erased, then the suffix after the last one. */
  function Trimmed(s: seq<char>, cs: seq<char>): (r: seq<char>)
    ensures |r| <= |s|
    ensures r != [] ==> r[0] !in cs && r[|r| - 1] !in cs
  {
    var t := s[FirstKept(s, cs)..];
    var j := KeptEnd(t, cs);
    assert 0 < j ==> t[..j][0] == t[0] && t[0] !in cs;
    t[..j]
  }

  /** `s[i..j]` is `s` with a prefix and a suffix made only of characters
      of `cs` removed, and it neither starts nor ends with one of them. */
  predicate IsTrimOf(s: seq<char>, cs: seq<char>, i: nat, j: nat) {
    i <= j <= |s| && AllInRange(s, cs, 0, i) && AllInRange(s, cs, j, |s|) &&
    (i < j ==> s[i] !in cs && s[j - 1] !in cs)
  }

  lemma FirstKeptUnique(s: seq<char>, cs: seq<char>, k: nat)
    requires k <= |s| && AllInRange(s, cs, 0, k) && (k < |s| ==> s[k] !in cs)
    ensures k == FirstKept(s, cs)
  {
  }

  lemma KeptEndUnique(s: seq<char>, cs: seq<char>, j: nat)
    requires j <= |s| && AllInRange(s, cs, j, |s|) && (0 < j ==> s[j - 1] !in cs)
    ensures j == KeptEnd(s, cs)
  {
  }

  // ---------------------------------------------------------------------
  // trim: properties
  // ---------------------------------------------------------------------

  /** trim removes only characters of the trim set, only from the two
      ends, and keeps the interior as a contiguous substring. */
  lemma TrimmedIsTrimOf(s: seq<char>, cs: seq<char>) returns (i: nat, j: nat)
    ensures IsTrimOf(s, cs, i, j)
    ensures Trimmed(s, cs) == s[i..j]
  {
    i := FirstKept(s, cs);
    var t := s[i..];
    var e := KeptEnd(t, cs);
    j := i + e;
    assert t[..e] == s[i..j];
    forall m | j <= m < |s| ensures s[m] in cs {
      assert s[m] == t[m - i];
    }
    if i < |s| {
      assert t[0] == s[i];
      assert t[e - 1] == s[j - 1];
    }
  }

  /** The decomposition above has exactly one solution: any way of
      stripping the trim set from both ends leaves Trimmed(s, cs). */
  lemma TrimOfUnique(s: seq<char>, cs: seq<char>, i: nat, j: nat)
    requires IsTrimOf(s, cs, i, j)
    ensures s[i..j] == Trimmed(s, cs)
  {
    if i == j {
      FirstKeptUnique(s, cs, |s|);
    } else {
      FirstKeptUnique(s, cs, i);
      var t := s[i..];
      forall m | j - i <= m < |t| ensures t[m] in cs {
        assert t[m] == s[m + i];
      }
      assert t[j - i - 1] == s[j - 1];
      KeptEndUnique(t, cs, j - i);
      assert t[..j - i] == s[i..j];
    }
  }

  /** An empty or all-trim-set value trims to "", and only such a value does. */
  lemma TrimmedEmptyIff(s: seq<char>, cs: seq<char>)
    ensures Trimmed(s, cs) == [] <==> AllInRange(s, cs, 0, |s|)
  {
    var i, j := TrimmedIsTrimOf(s, cs);
    if i < j {
      assert s[i] !in cs;
    }
  }

  /** Trimming an already trimmed value changes nothing. */
  lemma TrimmedIdempotent(s: seq<char>, cs: seq<char>)
    ensures Trimmed(Trimmed(s, cs), cs) == Trimmed(s, cs)
  {
    var r := Trimmed(s, cs);
    assert IsTrimOf(r, cs, 0, |r|);
    TrimOfUnique(r, cs, 0, |r|);
    assert r[0..|r|] == r;
  }

  /** With the default trim set, trim yields "" exactly for the values
      isWhitespaceOrEmpty accepts. */
  lemma BlankIffTrimsToEmpty(s: seq<char>)
    ensures IsWhitespaceOrEmpty(s) <==> Trimmed(s, Whitespace) == []
  {
    TrimmedEmptyIff(s, Whitespace);
  }

  /** "  hello  " trims to "hello". */
  lemma TrimExample()
    ensures Trimmed("  hello  ", Whitespace) == "hello"
  {
    var a := "  hello  ";
    assert a[2..7] == "hello";
    assert ' ' == Whitespace[0] && 'h' !in Whitespace && 'o' !in Whitespace;
    TrimOfUnique(a, Whitespace, 2, 7);
  }

  // ---------------------------------------------------------------------
  // trim: the in-place erasures
  // ---------------------------------------------------------------------

  /** The forward std::find_if for the first character not to trim. */
  method FindFirstKept(s: seq<char>, cs: seq<char>) returns (k: nat)
    ensures k == FirstKept(s, cs)
  {
    k := 0;
    while k < |s| && s[k] in cs
      invariant k <= |s|
      invariant AllInRange(s, cs, 0, k)
    {
      k := k + 1;
    }
    FirstKeptUnique(s, cs, k);
  }

  /** The backward std::find_if for the last character not to trim,
      returned as the index just past it. */
  method FindKeptEnd(s: seq<char>, cs: seq<char>) returns (j: nat)
    ensures j == KeptEnd(s, cs)
  {
    j := |s|;
    while 0 < j && s[j - 1] in cs
      invariant j <= |s|
      invariant AllInRange(s, cs, j, |s|)
    {
      j := j - 1;
    }
    KeptEndUnique(s, cs, j);
  }

  /** trim(value, trimChars): copy the value, erase the leading run of
      trim characters, then the trailing run. */
  method TrimChars(value: seq<char>, trimChars: seq<char>) returns (trimmed: seq<char>)
    ensures trimmed == Trimmed(value, trimChars)
  {
    trimmed := value;
    var first := FindFirstKept(trimmed, trimChars);
    trimmed := trimmed[first..];
    var last := FindKeptEnd(trimmed, trimChars);
    trimmed := trimmed[..last];
  }

  /** trim(value): trim with std::isspace as the test, that is with the
      whitespace set as the trim set. */
  method Trim(value: seq<char>) returns (trimmed: seq<char>)
    ensures trimmed == Trimmed(value, Whitespace)
  {
    trimmed := TrimChars(value, Whitespace);
  }

  // ---------------------------------------------------------------------
  // swapEndianness
  // ---------------------------------------------------------------------

  /** The bytes of a value in the opposite order. */
  function Swapped(b: seq<bv8>): (r: seq<bv8>)
    ensures |r| == |b|
    ensures forall i :: 0 <= i < |b| ==> r[|b| - 1 - i] == b[i]
  {
    seq(|b|, k requires 0 <= k < |b| => b[|b| - 1 - k])
  }

  /** swapEndianness: byte i of the value is written to byte n - 1 - i of
      a fresh buffer of the same width n. */
  method SwapEndianness(value: seq<bv8>) returns (swapped: seq<bv8>)
    ensures |swapped| == |value|
    ensures forall i :: 0 <= i < |value| ==> swapped[|value| - 1 - i] == value[i]
    ensures swapped == Swapped(value)
  {
    var n := |value|;
    var swappedBytes := new bv8[n];
    for i := 0 to n
      invariant forall m :: 0 <= m < i ==> swappedBytes[n - 1 - m] == value[m]
    {
      swappedBytes[n - 1 - i] := value[i];
    }
    swapped := swappedBytes[..];
    forall k | 0 <= k < n ensures swapped[k] == Swapped(value)[k] {
      assert swappedBytes[n - 1 - (n - 1 - k)] == value[n - 1 - k];
    }
  }

  /** Swapping twice gives back the original bytes. */
  lemma SwappedTwice(b: seq<bv8>)
    ensures Swapped(Swapped(b)) == b
  {
    var r := Swapped(Swapped(b));
    forall k | 0 <= k < |b| ensures r[k] == b[k] {
      assert Swapped(b)[|b| - 1 - k] == b[k];
      assert r[|b| - 1 - (|b| - 1 - k)] == Swapped(b)[|b| - 1 - k];
    }
  }

  /** The number the bytes stand for when the first byte is least significant. */
  function LittleEndian(b: seq<bv8>): nat {
    if b == [] then 0 else b[0] as nat + 256 * LittleEndian(b[1..])
  }

  /** The number the bytes stand for when the first byte is most significant. */
  function BigEndian(b: seq<bv8>): nat {
    if b == [] then 0 else b[|b| - 1] as nat + 256 * BigEndian(b[..|b| - 1])
  }

  /** Read back in the host's (little-endian) order, the swapped bytes give
      the number the original bytes stand for in the other order. */
  lemma {:induction false} SwappedReadsBigEndian(b: seq<bv8>)
    ensures LittleEndian(Swapped(b)) == BigEndian(b)
  {
    if b != [] {
      var front := b[..|b| - 1];
      assert Swapped(b)[0] == b[|b| - 1];
      assert Swapped(b)[1..] == Swapped(front) by {
        forall k | 0 <= k < |front| ensures Swapped(b)[1..][k] == Swapped(front)[k] {
          assert Swapped(b)[|b| - 1 - (|front| - 1 - k)] == b[|front| - 1 - k];
          assert Swapped(front)[|front| - 1 - (|front| - 1 - k)] == front[|front| - 1 - k];
        }
      }
      SwappedReadsBigEndian(front);
    }
  }

  /** LittleEndian of a byte in front of more bytes. */
  lemma LittleEndianCons(x: bv8, rest: seq<bv8>)
    ensures LittleEndian([x] + rest) == x as nat + 256 * LittleEndian(rest)
  {
    assert ([x] + rest)[1..] == rest;
  }

  /** The four-byte value 0x01020304, stored little-endian, becomes 0x04030201. */
  lemma SwapFourBytes()
    ensures LittleEndian([0x04, 0x03, 0x02, 0x01]) == 0x01020304
    ensures Swapped([0x04, 0x03, 0x02, 0x01]) == [0x01, 0x02, 0x03, 0x04]
    ensures LittleEndian(Swapped([0x04, 0x03, 0x02, 0x01])) == 0x04030201
  {
    var b: seq<bv8> := [0x04, 0x03, 0x02, 0x01];
    assert Swapped(b) == [0x01, 0x02, 0x03, 0x04] by {
      assert Swapped(b)[3 - 0] == b[0];
      assert Swapped(b)[3 - 1] == b[1];
      assert Swapped(b)[3 - 2] == b[2];
      assert Swapped(b)[3 - 3] == b[3];
    }
    LittleEndianCons(0x01, []);
    LittleEndianCons(0x02, [0x01]);
    LittleEndianCons(0x03, [0x02, 0x01]);
    LittleEndianCons(0x04, [0x03, 0x02, 0x01]);
    LittleEndianCons(0x04, []);
    LittleEndianCons(0x03, [0x04]);
    LittleEndianCons(0x02, [0x03, 0x04]);
    LittleEndianCons(0x01, [0x02, 0x03, 0x04]);
  }
}
