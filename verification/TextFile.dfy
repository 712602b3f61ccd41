/** A text file read with rewind and fgets through a buffer of 128 characters. */
module TextFile {
  import opened Wrappers

  const BUFFSIZE_LINE: nat := 128

  /** How many characters fgets takes: up to and including a newline, at most budget. */
  function LineLength(s: string, budget: nat): (n: nat)
    ensures n <= |s| && n <= budget
    ensures s != "" && budget > 0 ==> n > 0
  {
    if s == "" || budget == 0 then 0
    else if s[0] == '\n' then 1
    else 1 + LineLength(s[1..], budget - 1)
  }

  lemma LineLengthStep(s: string, budget: nat)
    requires s != "" && budget > 0
    ensures LineLength(s, budget) == if s[0] == '\n' then 1 else 1 + LineLength(s[1..], budget - 1)
  {
  }

  lemma LineLengthEnd(s: string)
    ensures LineLength(s, 0) == 0 && LineLength("", |s|) == 0
  {
  }

  function FirstLength(s: string): (n: nat)
    ensures n <= |s| && n < BUFFSIZE_LINE
    ensures s != "" ==> n > 0
  {
    LineLength(s, BUFFSIZE_LINE - 1)
  }

  /** The line fgets returns; None is its NULL at the end of the file. */
  function FirstLine(s: string): Option<string> {
    if s == "" then None else Some(s[..FirstLength(s)])
  }

  /** What is left after k lines. */
  function After(s: string, k: nat): string
    decreases k, |s|
  {
    if k == 0 then s else After(s[FirstLength(s)..], k - 1)
  }

  /** Line number k, counted from 0. */
  function Line(text: string, k: nat): Option<string> {
    FirstLine(After(text, k))
  }

  lemma {:induction false} AfterOneMore(s: string, k: nat)
    ensures After(s, k + 1) == After(s, k)[FirstLength(After(s, k))..]
    decreases k
  {
    if k > 0 {
      AfterOneMore(s[FirstLength(s)..], k - 1);
    }
  }

  lemma {:induction false} AfterEnd(s: string, k: nat, m: nat)
    requires k <= m && After(s, k) == ""
    ensures After(s, m) == ""
    decreases m - k
  {
    if k < m {
      AfterOneMore(s, k);
      AfterEnd(s, k + 1, m);
    }
  }

  // ---- What fgets makes of a text ----

  /** The cut is made behind the first newline, at the end of the text, or where the buffer is full. */
  lemma {:induction false} LineLengthMeaning(s: string, budget: nat)
    ensures var n := LineLength(s, budget);
            && (forall i :: 0 <= i < n - 1 ==> s[i] != '\n')
            && (n == |s| || n == budget || (n > 0 && s[n - 1] == '\n'))
  {
    if s != "" && budget > 0 && s[0] != '\n' {
      LineLengthMeaning(s[1..], budget - 1);
      var n := LineLength(s[1..], budget - 1);
      forall i | 0 <= i < n ensures s[i] != '\n' {
        assert i > 0 ==> s[i] == s[1..][i - 1];
      }
    }
  }

  /** At most 127 characters at a time. */
  lemma FirstLengthMeaning(s: string)
    ensures var n := FirstLength(s);
            && n <= 127 && (n == |s| || n == 127 || (n > 0 && s[n - 1] == '\n'))
            && forall i :: 0 <= i < n - 1 ==> s[i] != '\n'
  {
    hide LineLength;
    LineLengthMeaning(s, 127);
  }

  /** A line that fits the buffer, with the newline at its end and nowhere else. */
  predicate IsLine(line: string) {
    && 0 < |line| <= 127
    && line[|line| - 1] == '\n'
    && forall i :: 0 <= i < |line| - 1 ==> line[i] != '\n'
  }

  function Join(lines: seq<string>): string {
    if lines == [] then "" else lines[0] + Join(lines[1..])
  }

  lemma FirstOfJoin(line: string, rest: string)
    requires IsLine(line)
    ensures FirstLength(line + rest) == |line|
  {
    var s := line + rest;
    var n := FirstLength(s);
    LineLengthMeaning(s, BUFFSIZE_LINE - 1);
    hide LineLength;
    assert forall i :: 0 <= i < |line| ==> s[i] == line[i];
    assert s[|line| - 1] == '\n';
  }

  /** Lines that fit come back from the file one by one. */
  lemma {:induction false} JoinedLine(lines: seq<string>, rest: string, k: nat)
    requires forall i :: 0 <= i < |lines| ==> IsLine(lines[i])
    requires k < |lines|
    ensures Line(Join(lines) + rest, k) == Some(lines[k])
    decreases k
  {
    hide IsLine, FirstLength;
    var tail := Join(lines[1..]) + rest;
    assert Join(lines) + rest == lines[0] + tail;
    FirstOfJoin(lines[0], tail);
    NotEmpty(lines[0]);
    assert (lines[0] + tail)[..|lines[0]|] == lines[0];
    assert (lines[0] + tail)[|lines[0]|..] == tail;
    if k > 0 {
      JoinedLine(lines[1..], rest, k - 1);
    }
  }

  lemma NotEmpty(line: string)
    requires IsLine(line)
    ensures line != ""
  {
  }

  class File {
    const text: string
    var pos: nat

    ghost predicate Valid()
      reads this
    {
      pos <= |text|
    }

    /** The part not read yet. */
    ghost function Rest(): string
      reads this
      requires Valid()
    {
      text[pos..]
    }

    constructor (text: string)
      ensures Valid() && this.text == text && pos == 0
    {
      this.text := text;
      pos := 0;
    }

    method Rewind()
      modifies this
      ensures Valid() && Rest() == text
    {
      pos := 0;
    }

    method Fgets() returns (line: Option<string>)
      requires Valid()
      modifies this
      ensures Valid()
      ensures line == FirstLine(old(Rest()))
      ensures Rest() == old(Rest())[FirstLength(old(Rest()))..]
    {
      hide LineLength;
      ghost var rest := text[pos..];
      if pos == |text| {
        return None;
      }
      var start := pos;
      while pos < |text| && pos - start < BUFFSIZE_LINE - 1
        invariant start <= pos <= |text| && pos - start <= BUFFSIZE_LINE - 1
        invariant FirstLength(rest) == pos - start + LineLength(text[pos..], BUFFSIZE_LINE - 1 - (pos - start))
        modifies this
      {
        LineLengthStep(text[pos..], BUFFSIZE_LINE - 1 - (pos - start));
        assert text[pos..][1..] == text[pos + 1..];
        LineLengthEnd(text[pos + 1..]);
        pos := pos + 1;
        if text[pos - 1] == '\n' {
          break;
        }
      }
      LineLengthEnd(text[pos..]);
      assert rest[..pos - start] == text[start..pos];
      assert rest[pos - start..] == text[pos..];
      return Some(text[start..pos]);
    }

    /** The skipping loops of emul_read: rewind, then count calls to fgets. */
    method SkipLines(count: nat) returns (ok: bool)
      requires Valid()
      modifies this
      ensures Valid()
      ensures ok ==> Rest() == After(text, count)
      ensures !ok ==> forall m :: m >= count ==> Line(text, m) == None
    {
      Rewind();
      var i := 0;
      while i < count
        invariant i <= count && Valid() && Rest() == After(text, i)
      {
        ghost var rest := Rest();
        var line := Fgets();
        if line == None {
          forall m | m >= count ensures Line(text, m) == None {
            AfterEnd(text, i, m);
          }
          return false;
        }
        AfterOneMore(text, i);
        i := i + 1;
      }
      return true;
    }
  }
}
