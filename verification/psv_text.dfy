/**
 * The pipe-separated dump both file sinks write: a header line, then one
 * line per record, each terminated by `Environment.NewLine` as
 * `StringBuilder.AppendLine` does.
 */
module PsvText {
  import opened Text
  import opened Messages

  /** The text of a `StringBuilder` after `AppendLine(header)` and `AppendLine(line)` for each line, in order. */
  function Document(header: string, lines: seq<string>, newline: string): string
  {
    if |lines| == 0 then header + newline
    else Document(header, lines[..|lines| - 1], newline) + lines[|lines| - 1] + newline
  }

  /** Column separator between every two fields, and the one before the failure time. */
  const Sep := " | "
  const TimeSep := " |  "

  /** The titles of the eight shared columns, in order, as the header line spells them. */
  const CommonTitles := ["MessageId", "TimeOfFailure", "ExceptionType", "OriginatingEndpoint",
                         "ProcessingEndpoint", "EnclosedMessageTypes", "ExceptionMessage", "Stack Trace"]

  /** The header line naming the eight shared columns. */
  const CommonHeader := "MessageId" + Sep + "TimeOfFailure" + Sep + "ExceptionType" + Sep + "OriginatingEndpoint"
    + Sep + "ProcessingEndpoint" + Sep + "EnclosedMessageTypes" + Sep + "ExceptionMessage" + Sep + "Stack Trace"

  /** Cutting the header at pipes gives each title, padded by the separators around it. */
  lemma CommonHeaderSplit()
    ensures Split(CommonHeader, '|') == HeaderCells(CommonTitles)
  {
    HeaderSplit(CommonTitles);
  }

  lemma CommonHeaderOneLine()
    ensures '\n' !in CommonHeader
  {
    var t := CommonTitles;
    assert AllAvoid(t, '\n');
    assert CommonHeader == t[0] + Sep + t[1] + Sep + t[2] + Sep + t[3] + Sep + t[4] + Sep + t[5] + Sep + t[6] + Sep + t[7];
  }

  /** Eight pipe-free titles joined by the separator split back into their padded cells. */
  lemma HeaderSplit(t: seq<string>)
    requires |t| == 8 && AllAvoid(t, '|')
    ensures Split(t[0] + Sep + t[1] + Sep + t[2] + Sep + t[3] + Sep + t[4] + Sep + t[5] + Sep + t[6] + Sep + t[7], '|')
         == HeaderCells(t)
  {
    HeaderJoin(t);
    SplitJoinCells(HeaderCells(t), '|');
  }

  /** Eight titles joined by the separator are their padded cells joined at pipes. */
  lemma HeaderJoin(t: seq<string>)
    requires |t| == 8
    ensures t[0] + Sep + t[1] + Sep + t[2] + Sep + t[3] + Sep + t[4] + Sep + t[5] + Sep + t[6] + Sep + t[7]
         == JoinCells(HeaderCells(t), '|')
  {
    var c := HeaderCells(t);
    assert c == [t[0] + " ", " " + t[1] + " ", " " + t[2] + " ", " " + t[3] + " ",
                 " " + t[4] + " ", " " + t[5] + " ", " " + t[6] + " ", " " + t[7]];
    RegroupHeader(t[0], t[1], t[2], t[3], t[4], t[5], t[6], t[7]);
    assert JoinCells(c[7..], '|') == c[7];
    assert JoinCells(c[6..], '|') == c[6] + ['|'] + c[7];
    assert JoinCells(c[5..], '|') == c[5] + ['|'] + JoinCells(c[6..], '|');
    assert JoinCells(c[4..], '|') == c[4] + ['|'] + JoinCells(c[5..], '|');
    assert JoinCells(c[3..], '|') == c[3] + ['|'] + JoinCells(c[4..], '|');
    assert JoinCells(c[2..], '|') == c[2] + ['|'] + JoinCells(c[3..], '|');
    assert JoinCells(c[1..], '|') == c[1] + ['|'] + JoinCells(c[2..], '|');
  }

  /** The cells of a header line: the first title with a trailing space, the last with a leading one, the rest with both. */
  function HeaderCells(titles: seq<string>): (cells: seq<string>)
    requires |titles| > 1
    ensures |cells| == |titles|
  {
    [titles[0] + " "]
      + seq(|titles| - 2, i requires 0 <= i < |titles| - 2 => " " + titles[i + 1] + " ")
      + [" " + titles[|titles| - 1]]
  }

  /** The eight columns the two sinks share, in their fixed order. */
  function CommonColumns(m: MessageModel): string
  {
    m.messageId + TimeSep + m.timeOfFailure + Sep + m.exceptionType + Sep + m.originatingEndpoint
      + Sep + m.processingEndpoint + Sep + m.enclosedMessageTypes + Sep + m.exceptionMessage
      + Sep + m.stackTrace
  }

  /** The eight shared columns as the pipe characters cut them, padding included. */
  function CommonCells(m: MessageModel): seq<string>
  {
    [ m.messageId + " ", "  " + m.timeOfFailure + " ", " " + m.exceptionType + " ",
      " " + m.originatingEndpoint + " ", " " + m.processingEndpoint + " ",
      " " + m.enclosedMessageTypes + " ", " " + m.exceptionMessage + " ", " " + m.stackTrace ]
  }

  /** When no field holds a pipe, cutting the shared columns at pipes gives the eight fields in order. */
  lemma CommonColumnsSplit(m: MessageModel)
    requires FieldsAvoid(m, '|')
    ensures Split(CommonColumns(m), '|') == CommonCells(m)
  {
    var c := CommonCells(m);
    assert '|' !in Get(m, MessageId) && '|' !in Get(m, TimeOfFailure) && '|' !in Get(m, ExceptionType);
    assert '|' !in Get(m, OriginatingEndpoint) && '|' !in Get(m, ProcessingEndpoint);
    assert '|' !in Get(m, EnclosedMessageTypes) && '|' !in Get(m, ExceptionMessage) && '|' !in Get(m, StackTrace);
    CommonColumnsJoin(m);
    SplitJoinCells(c, '|');
  }

  /** The shared columns are the eight cells joined at pipe characters. */
  lemma CommonColumnsJoin(m: MessageModel)
    ensures CommonColumns(m) == JoinCells(CommonCells(m), '|')
  {
    var c := CommonCells(m);
    Regroup(m.messageId, m.timeOfFailure, m.exceptionType, m.originatingEndpoint,
            m.processingEndpoint, m.enclosedMessageTypes, m.exceptionMessage, m.stackTrace);
    assert JoinCells(c[7..], '|') == c[7];
    assert JoinCells(c[6..], '|') == c[6] + ['|'] + c[7];
    assert JoinCells(c[5..], '|') == c[5] + ['|'] + JoinCells(c[6..], '|');
    assert JoinCells(c[4..], '|') == c[4] + ['|'] + JoinCells(c[5..], '|');
    assert JoinCells(c[3..], '|') == c[3] + ['|'] + JoinCells(c[4..], '|');
    assert JoinCells(c[2..], '|') == c[2] + ['|'] + JoinCells(c[3..], '|');
    assert JoinCells(c[1..], '|') == c[1] + ['|'] + JoinCells(c[2..], '|');
  }

  /** The header text regrouped around its pipe characters. */
  lemma RegroupHeader(a: string, b: string, c: string, d: string, e: string, f: string, g: string, h: string)
    ensures a + Sep + b + Sep + c + Sep + d + Sep + e + Sep + f + Sep + g + Sep + h
         == (a + " ") + ['|'] + ((" " + b + " ") + ['|'] + ((" " + c + " ") + ['|'] + ((" " + d + " ") + ['|']
           + ((" " + e + " ") + ['|'] + ((" " + f + " ") + ['|'] + ((" " + g + " ") + ['|'] + (" " + h)))))))
  {
    SepCell(a + Sep + b + Sep + c + Sep + d + Sep + e + Sep + f + Sep + g, h);
    SepCell(a + Sep + b + Sep + c + Sep + d + Sep + e + Sep + f, g);
  }

  /** One more title pads the former last header cell and adds its own. */
  lemma HeaderCellsSnoc(t: seq<string>, x: string)
    requires |t| > 1
    ensures HeaderCells(t + [x]) == HeaderCells(t)[..|t| - 1] + [HeaderCells(t)[|t| - 1] + " ", " " + x]
  {
    var a, b := HeaderCells(t + [x]), HeaderCells(t)[..|t| - 1] + [HeaderCells(t)[|t| - 1] + " ", " " + x];
    assert |a| == |b|;
    forall i | 0 <= i < |a| ensures a[i] == b[i] {
      if 0 < i < |t| - 1 {
        assert a[i] == " " + (t + [x])[i] + " ";
      }
    }
  }

  /** Appending one more column after a separator pads the former last cell and adds a new one. */
  lemma JoinCellsSep(init: seq<string>, last: string, x: string)
    requires |init| > 0
    ensures JoinCells(init + [last], '|') + Sep + x == JoinCells(init + [last + " ", " " + x], '|')
  {
    var front := JoinCells(init, '|');
    JoinCellsSnoc(init, last, '|');
    JoinCellsSnoc(init, last + " ", '|');
    JoinCellsSnoc(init + [last + " "], " " + x, '|');
    assert init + [last + " ", " " + x] == init + [last + " "] + [" " + x];
    calc {
      JoinCells(init + [last], '|') + Sep + x;
      front + ['|'] + last + Sep + x;
      { SepCell(front + ['|'] + last, x); }
      (front + ['|'] + last + " ") + ['|'] + (" " + x);
      { assert front + ['|'] + last + " " == front + ['|'] + (last + " "); }
      JoinCells(init + [last + " "], '|') + ['|'] + (" " + x);
    }
  }

  lemma SepCell(x: string, y: string)
    ensures x + Sep + y == (x + " ") + ['|'] + (" " + y)
  {}

  /** The column text regrouped around its pipe characters. */
  lemma Regroup(a: string, b: string, c: string, d: string, e: string, f: string, g: string, h: string)
    ensures a + TimeSep + b + Sep + c + Sep + d + Sep + e + Sep + f + Sep + g + Sep + h
         == (a + " ") + ['|'] + (("  " + b + " ") + ['|'] + ((" " + c + " ") + ['|'] + ((" " + d + " ") + ['|']
           + ((" " + e + " ") + ['|'] + ((" " + f + " ") + ['|'] + ((" " + g + " ") + ['|'] + (" " + h)))))))
  {
    SepCell(a + TimeSep + b + Sep + c + Sep + d + Sep + e + Sep + f + Sep + g, h);
    SepCell(a + TimeSep + b + Sep + c + Sep + d + Sep + e + Sep + f, g);
  }

  /** No field of `m` contains `c`. */
  predicate FieldsAvoid(m: MessageModel, c: char)
  {
    forall f :: c !in Get(m, f)
  }

  /**
   * With a newline holding exactly one line feed and no line feed elsewhere,
   * the document has exactly one more line than there are records.
   */
  lemma {:induction false} DocumentLineCount(header: string, lines: seq<string>, newline: string)
    requires CountChar(newline, '\n') == 1
    requires '\n' !in header && AllAvoid(lines, '\n')
    ensures CountChar(Document(header, lines, newline), '\n') == |lines| + 1
  {
    if |lines| == 0 {
      CountCharAppend(header, newline, '\n');
      CountCharAbsent(header, '\n');
    } else {
      var init := lines[..|lines| - 1];
      var last := lines[|lines| - 1];
      DocumentLineCount(header, init, newline);
      CountCharAppend(Document(header, init, newline) + last, newline, '\n');
      CountCharAppend(Document(header, init, newline), last, '\n');
      CountCharAbsent(last, '\n');
    }
  }

  /**
   * With `"\n"` as the newline, splitting the document at line feeds gives
   * back the header, every line in order, and the empty rest after the last
   * terminator.
   */
  lemma {:induction false} DocumentSplits(header: string, lines: seq<string>)
    requires '\n' !in header && AllAvoid(lines, '\n')
    ensures Split(Document(header, lines, "\n"), '\n') == [header] + lines + [""]
  {
    DocumentSplitsFrom(header, lines, "");
    assert Document(header, lines, "\n") + "" == Document(header, lines, "\n");
  }

  lemma {:induction false} DocumentSplitsFrom(header: string, lines: seq<string>, tail: string)
    requires '\n' !in header && AllAvoid(lines, '\n')
    ensures Split(Document(header, lines, "\n") + tail, '\n') == [header] + lines + Split(tail, '\n')
  {
    if |lines| == 0 {
      assert header + "\n" + tail == header + ['\n'] + tail;
      SplitJoin(header, '\n', tail);
    } else {
      var init := lines[..|lines| - 1];
      var last := lines[|lines| - 1];
      AllAvoidInit(lines, '\n');
      var d := Document(header, init, "\n");
      LineThenTail(d, last, tail);
      DocumentSplitsFrom(header, init, last + ['\n'] + tail);
      SplitJoin(last, '\n', tail);
      assert [header] + init + ([last] + Split(tail, '\n')) == [header] + lines + Split(tail, '\n') by {
        assert lines == init + [last];
      }
    }
  }

  lemma AllAvoidInit(lines: seq<string>, c: char)
    requires |lines| > 0 && AllAvoid(lines, c)
    ensures AllAvoid(lines[..|lines| - 1], c) && c !in lines[|lines| - 1]
  {
    assert forall i :: 0 <= i < |lines| - 1 ==> lines[..|lines| - 1][i] == lines[i];
  }

  /** One more terminated line followed by the rest of the text, regrouped. */
  lemma LineThenTail(d: string, last: string, tail: string)
    ensures d + last + "\n" + tail == d + (last + ['\n'] + tail)
  {}
}
