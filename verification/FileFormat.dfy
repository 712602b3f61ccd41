/**
 Files that the emulator opens and the provisioning tool accepts: sixteen keys, sixteen OTP words
 and a serial number, each written on a line of its own. What is written is what is read.
 */
module FileFormat {
  import opened Api
  import opened Bits
  import opened Emulation
  import opened HexLine
  import opened Protocol
  import opened Provisioning
  import opened TextFile
  import opened Wrappers

  /** Bytes, and the delimiters in front of each. */
  datatype Written = Written(bytes: seq<byte>, gaps: seq<string>)

  type Row = w: Written | |w.gaps| == |w.bytes| witness Written([], [])

  function Text(r: Row): string {
    Render(Spelled(r.bytes, r.gaps)) + "\n"
  }

  /** n bytes on a line that fits the buffer of fgets. */
  predicate IsRow(r: Row, n: nat) {
    && |r.bytes| == n > 0
    && (forall g :: g in r.gaps ==> IsGap(g))
    && |Text(r)| <= 127
  }

  /** A row is one line of the file, and parses to its bytes. */
  lemma RowReadsBack(r: Row, n: nat)
    requires IsRow(r, n)
    ensures IsLine(Text(r)) && ParseLine(Text(r), n) == Some(r.bytes)
  {
    hide HexNumber, Strlen, Parse, Digit;
    var ts := Spelled(r.bytes, r.gaps);
    WrittenValues(r.bytes, r.gaps);
    hide Spelled, Render;
    assert forall i :: 0 <= i < |ts| ==> ts[i] in ts;
    RenderedCharacters(ts);
    RoundTrip(ts, "\n");
  }

  /** How many bytes are on each line. */
  function WidthOf(line: nat): nat {
    if line < 16 then SLOT_BYTE_LEN else if line < 32 then OTP_BYTE_LEN else SN_BYTE_LEN
  }

  /** Keys, OTP words, serial number. */
  predicate IsChipFile(rows: seq<Row>) {
    |rows| == 33 && forall i :: 0 <= i < 33 ==> IsRow(rows[i], WidthOf(i))
  }

  function Lines(rows: seq<Row>): (lines: seq<string>)
    ensures |lines| == |rows|
    ensures forall i :: 0 <= i < |rows| ==> lines[i] == Text(rows[i])
  {
    seq(|rows|, i requires 0 <= i < |rows| => Text(rows[i]))
  }

  lemma RowOfFile(rows: seq<Row>, rest: string, i: nat)
    requires IsChipFile(rows) && i < 33
    ensures LineBytes(Join(Lines(rows)) + rest, i, WidthOf(i)) == Success(rows[i].bytes)
  {
    hide IsRow, ParseLine, Join, Text, IsLine;
    forall j | 0 <= j < 33 ensures IsLine(Lines(rows)[j]) {
      RowReadsBack(rows[j], WidthOf(j));
    }
    RowReadsBack(rows[i], WidthOf(i));
    JoinedLine(Lines(rows), rest, i);
  }

  /** Lines that all parse make a table. */
  lemma {:induction false} TableComplete(s: string, n: nat, k: nat)
    requires forall i :: 0 <= i < k ==> LineBytes(s, i, n).Success?
    ensures Table(s, n, k).Some?
    decreases k
  {
    hide ParseLine, LineBytes, FirstLength;
    if k == 0 {
      TableNone(s, n);
    } else {
      var rest := s[FirstLength(s)..];
      forall i | 0 <= i < k - 1 ensures LineBytes(rest, i, n).Success? {
        LineNext(s, i + 1, n);
      }
      TableComplete(rest, n, k - 1);
      assert LineBytes(s, 0, n).Success?;
      FirstRow(s, n);
      TableNext(s, n, k);
    }
  }

  lemma FirstRow(s: string, n: nat)
    requires LineBytes(s, 0, n).Success?
    ensures FirstLine(s).Some? && ParseLine(FirstLine(s).value, n).Some?
  {
    hide ParseLine;
    AfterNone(s);
  }

  lemma LineBehind(text: string, k: nat, i: nat, n: nat)
    ensures LineBytes(After(text, k), i, n) == LineBytes(text, k + i, n)
  {
    hide ParseLine, After;
    AfterAfter(text, k, i);
  }

  /** Key and OTP word number i are read as they were written, by the emulator and by the provisioning tool. */
  predicate GivesBack(text: string, crypto: Crypto, rows: seq<Row>, i: nat)
    requires IsChipFile(rows) && i < 16
    requires Provisionable(text) && Openable(text, crypto)
  {
    && KeyOf(Opened(text, crypto), i) == Success(rows[i].bytes)
    && OtpOf(Opened(text, crypto), i) == Success(rows[16 + i].bytes)
    && KeysOf(text).value[32 * i..32 * i + 32] == rows[i].bytes
    && WordsOf(text).value[4 * i..4 * i + 4] == rows[16 + i].bytes
  }

  lemma FileAccepted(rows: seq<Row>, rest: string)
    requires IsChipFile(rows)
    ensures Provisionable(Join(Lines(rows)) + rest)
  {
    hide IsRow, Join, Lines, LineBytes, Table, After;
    var text := Join(Lines(rows)) + rest;
    forall i: nat | i < 16 ensures LineBytes(text, i, 32).Success? {
      RowOfFile(rows, rest, i);
    }
    forall i: nat | i < 16 ensures LineBytes(After(text, 16), i, 4).Success? {
      LineBehind(text, 16, i, 4);
      RowOfFile(rows, rest, 16 + i);
    }
    TableComplete(text, 32, 16);
    TableComplete(After(text, 16), 4, 16);
  }

  lemma FileOpens(rows: seq<Row>, rest: string, crypto: Crypto)
    requires IsChipFile(rows)
    ensures var text := Join(Lines(rows)) + rest;
            && Openable(text, crypto)
            && Opened(text, crypto).sn == rows[16].bytes + rows[17].bytes
            && ChipSerialOf(Opened(text, crypto)) == Success(rows[32].bytes)
  {
    hide IsRow, Join, Lines, LineBytes;
    RowOfFile(rows, rest, 16);
    RowOfFile(rows, rest, 17);
    RowOfFile(rows, rest, 18);
    RowOfFile(rows, rest, 32);
  }

  lemma RowGivenBack(rows: seq<Row>, rest: string, crypto: Crypto, i: nat)
    requires IsChipFile(rows) && i < 16
    requires Provisionable(Join(Lines(rows)) + rest) && Openable(Join(Lines(rows)) + rest, crypto)
    ensures GivesBack(Join(Lines(rows)) + rest, crypto, rows, i)
  {
    hide IsRow, Join, Lines, LineBytes, Table, After;
    var text := Join(Lines(rows)) + rest;
    RowOfFile(rows, rest, i);
    RowOfFile(rows, rest, 16 + i);
    LineBehind(text, 16, i, 4);
    TableRow(text, 32, 16, i);
    TableRow(After(text, 16), 4, 16, i);
  }

  /** Every written file can be provisioned from and opened, and gives back exactly what was written. */
  lemma FileRoundTrip(rows: seq<Row>, rest: string, crypto: Crypto)
    requires IsChipFile(rows)
    ensures var text := Join(Lines(rows)) + rest;
            && Provisionable(text) && Openable(text, crypto)
            && Opened(text, crypto).sn == rows[16].bytes + rows[17].bytes
            && ChipSerialOf(Opened(text, crypto)) == Success(rows[32].bytes)
            && forall i :: 0 <= i < 16 ==> GivesBack(text, crypto, rows, i)
  {
    hide IsRow, Join, Lines, Provisionable, Openable, Opened, ChipSerialOf, GivesBack;
    FileAccepted(rows, rest);
    FileOpens(rows, rest, crypto);
    forall i | 0 <= i < 16 ensures GivesBack(Join(Lines(rows)) + rest, crypto, rows, i) {
      RowGivenBack(rows, rest, crypto, i);
    }
  }

  /** A line without delimiters fits, so whatever a chip may hold can be written. */
  lemma {:induction false} PlainLength(bs: seq<byte>)
    ensures |Render(Spelled(bs, seq(|bs|, _ => "")))| == 2 * |bs|
  {
    hide Digit, Value;
    if bs != [] {
      assert seq(|bs|, _ => "")[1..] == seq(|bs| - 1, _ => "");
      PlainLength(bs[1..]);
    }
  }

  function Plain(bs: seq<byte>): Row {
    Written(bs, seq(|bs|, _ => ""))
  }

  lemma PlainFits(bs: seq<byte>)
    requires 0 < |bs| <= 63
    ensures IsRow(Plain(bs), |bs|)
  {
    hide Spelled, Render;
    PlainLength(bs);
  }

  /** Every chip's contents can be written to a file. */
  lemma AnyContentsWritable(contents: seq<seq<byte>>) returns (rows: seq<Row>)
    requires |contents| == 33 && forall i :: 0 <= i < 33 ==> |contents[i]| == WidthOf(i)
    ensures IsChipFile(rows) && forall i :: 0 <= i < 33 ==> rows[i].bytes == contents[i]
  {
    hide IsRow;
    rows := seq(33, i requires 0 <= i < 33 => Plain(contents[i]));
    forall i | 0 <= i < 33 ensures IsRow(rows[i], WidthOf(i)) {
      PlainFits(contents[i]);
    }
  }
}
