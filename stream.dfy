/** The part of std::istream the scanning layer relies on: a character
    source with a read position, the eofbit and the failbit, and
    std::getline(stream, str, delim) with the semantics of the C++
    standard library (a sentry that refuses a stream that is not good,
    extraction up to and including the delimiter, failbit when nothing
    was extracted). */
module Stream {

  /** Index of the first `delim` at or after `pos`, or |data| when there is none. */
  function DelimIndex(data: seq<char>, pos: nat, delim: char): (k: nat)
    requires pos <= |data|
    ensures pos <= k <= |data|
    ensures forall i :: pos <= i < k ==> data[i] != delim
    ensures k < |data| ==> data[k] == delim
    decreases |data| - pos
  {
    if pos == |data| || data[pos] == delim then pos
    else DelimIndex(data, pos + 1, delim)
  }

  /** Any index with the two defining properties is DelimIndex. */
  lemma DelimIndexUnique(data: seq<char>, pos: nat, delim: char, k: nat)
    requires pos <= k <= |data|
    requires forall i :: pos <= i < k ==> data[i] != delim
    requires k < |data| ==> data[k] == delim
    ensures k == DelimIndex(data, pos, delim)
  {
  }

  class InputStream {
    /** The characters the stream delivers, start to end. */
    const data: seq<char>
    /** Index of the next character to extract. */
    var pos: nat
    var eof: bool
    var fail: bool

    /** The end-of-file and failure bits are only ever set at the end of input. */
    ghost predicate Valid()
      reads this
    {
      pos <= |data| && ((eof || fail) ==> pos == |data|)
    }

    /** std::ios::good(), leaving out badbit. */
    predicate Good()
      reads this
    {
      !eof && !fail
    }

    constructor (s: seq<char>)
      ensures Valid() && Good()
      ensures data == s && pos == 0
    {
      data := s;
      pos := 0;
      eof := false;
      fail := false;
    }

    /** std::getline(*this, line, delim). On a stream that is not good the
        sentry sets failbit and `line` is handed back untouched. Otherwise
        the result is the characters up to the next `delim` or the end of
        input; the delimiter is consumed and not stored; reaching the end
        sets eofbit, and extracting nothing at all sets failbit. */
    method GetLine(line: seq<char>, delim: char) returns (r: seq<char>)
      requires Valid()
      modifies this
      ensures Valid()
      ensures !old(Good()) ==> r == line && fail && pos == old(pos) && eof == old(eof)
      ensures old(Good()) ==>
        var k := DelimIndex(data, old(pos), delim);
        && r == data[old(pos)..k]
        && pos == (if k < |data| then k + 1 else |data|)
        && eof == (k == |data|)
        && fail == (old(pos) == |data|)
    {
      if !Good() {
        fail := true;
        r := line;
        return;
      }
      var start := pos;
      r := [];
      while true
        invariant start <= pos <= |data|
        invariant r == data[start..pos]
        invariant forall i :: start <= i < pos ==> data[i] != delim
        invariant !eof && !fail
        decreases |data| - pos
      {
        if pos == |data| {
          eof := true;
          break;
        }
        var c := data[pos];
        pos := pos + 1;
        if c == delim {
          break;
        }
        r := r + [c];
      }
      if pos == start {
        fail := true;
      }
      if eof {
        DelimIndexUnique(data, start, delim, pos);
      } else {
        DelimIndexUnique(data, start, delim, pos - 1);
      }
    }
  }
}
