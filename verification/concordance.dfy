/**
 * The class Concordance of concordance.py: a stop-word table and a
 * concordance table, both instances of HashTable, filled from the lines of
 * two files and written out as a sorted report.  File contents are given as
 * sequences of lines and the report is returned as a string.
 */
module ConcordanceModel {
  import opened HashSpec
  import opened HashQuad
  import opened Text
  import opened IndexSpec
  import opened ReportSpec
  import opened LoadSpec

  /** The value stored with each stop word (Python's None). */
  datatype NoValue = NoValue

  /** The size every table of the concordance starts with. */
  const StartSize: nat := 191

  class Concordance {
    /** The stop words, as keys with no value; null until load_stop_table. */
    var stopTable: HashTable?<NoValue>
    /** Each word mapped to the list of the lines it occurs on. */
    var concordanceTable: HashTable<seq<nat>>

    /** __post_init__: no stop table, an empty concordance table of size 191. */
    constructor ()
      ensures stopTable == null && fresh(concordanceTable) && fresh(concordanceTable.slots)
      ensures concordanceTable.Valid() && concordanceTable.tableSize == StartSize
      ensures concordanceTable.Contents() == map[]
    {
      stopTable := null;
      concordanceTable := new HashTable<seq<nat>>(StartSize);
    }

    /**
     * load_stop_table: a fresh table of size 191 receives every token of
     * every line as a key, in order.  It holds only such tokens, and all of
     * them unless one of its inserts lost an entry, which cannot happen when
     * there are at most 191 distinct tokens.
     */
    method LoadStopTable(lines: seq<string>)
      modifies this
      ensures stopTable != null && fresh(stopTable) && fresh(stopTable.slots) && stopTable.Valid()
      ensures concordanceTable == old(concordanceTable)
      ensures stopTable.slots[..] == InsertAll(Empties(StartSize), Tokens(lines), NoValue)
      ensures stopTable.lossless == InsertAllKeeps(Empties(StartSize), Tokens(lines), NoValue)
      ensures forall w :: w in stopTable.Contents() ==> w in Tokens(lines)
      ensures stopTable.lossless ==> forall w :: w in Tokens(lines) ==> w in stopTable.Contents()
      ensures |set w | w in Tokens(lines)| <= StartSize ==> stopTable.lossless
    {
      var table := new HashTable<NoValue>(StartSize);
      ghost var empty := table.slots[..];
      assert Placed(empty) && Count(empty) == 0 && Contents(empty) == map[];
      for i := 0 to |lines|
        invariant fresh(table) && fresh(table.slots) && table.Valid()
        invariant concordanceTable == old(concordanceTable)
        invariant table.slots[..] == InsertAll(empty, Tokens(lines[..i]), NoValue)
        invariant table.lossless == InsertAllKeeps(empty, Tokens(lines[..i]), NoValue)
      {
        assert lines[..i + 1][..i] == lines[..i];
        var words := Split(lines[i]);
        SplitTokens(lines[i]);
        ghost var done := Tokens(lines[..i]);
        assert Tokens(lines[..i + 1]) == done + words;
        InsertAllAppend(empty, done, words, NoValue);
        InsertAllKeepsAppend(empty, done, words, NoValue);
        InsertTokens(table, words);
      }
      assert lines[..|lines|] == lines;
      InsertAllKeys(empty, Tokens(lines), NoValue);
      assert |set w | w in Tokens(lines)| <= StartSize ==> table.lossless by {
        if |set w | w in Tokens(lines)| <= StartSize {
          InsertAllWithin(empty, Tokens(lines), NoValue, set w | w in Tokens(lines));
        }
      }
      stopTable := table;
    }

    /** The inner loop of load_stop_table: each token of one line, stripped, inserted as a key. */
    method InsertTokens(table: HashTable<NoValue>, words: seq<string>)
      requires table.Valid()
      requires forall w :: w in words ==> IsToken(w)
      modifies table, table.slots
      ensures table.Valid() && (table.slots == old(table.slots) || fresh(table.slots))
      ensures table.slots[..] == InsertAll(old(table.slots[..]), words, NoValue)
      ensures table.lossless == (old(table.lossless) && InsertAllKeeps(old(table.slots[..]), words, NoValue))
    {
      ghost var s0 := table.slots[..];
      for j := 0 to |words|
        invariant table.Valid() && (table.slots == old(table.slots) || fresh(table.slots))
        invariant table.slots[..] == InsertAll(s0, words[..j], NoValue)
        invariant table.lossless == (old(table.lossless) && InsertAllKeeps(s0, words[..j], NoValue))
      {
        InsertAllStep(s0, words, j, NoValue);
        InsertAllKeepsStep(s0, words, j, NoValue);
        StripToken(words[j]);
        table.Insert(Strip(words[j]), NoValue);
      }
      assert words[..|words|] == words;
    }

    /** A table of 191 or 383 slots loaded at most 0.5. */
    ghost predicate SmallTable<V>(table: HashTable<V>)
      reads table
    {
      (table.tableSize == 191 || table.tableSize == 383) && 2 * table.numItems <= table.tableSize
    }

    /**
     * load_concordance_table: a fresh table of size 191; for line n, each
     * word of the processed line that is neither a stop word nor a number
     * gets n appended to its list, unless the list holds n already, or the
     * list [n] when the word is new.  Whatever entries are lost, every entry
     * kept is a valid concordance entry; when none is lost, which is the
     * case when the concordance has at most 191 words, the table holds
     * exactly the concordance of the lines.
     */
    method LoadConcordanceTable(lines: seq<string>, isNumber: string -> bool)
      requires stopTable != null && stopTable.Valid()
      modifies this
      ensures stopTable == old(stopTable)
      ensures fresh(concordanceTable) && fresh(concordanceTable.slots) && concordanceTable.Valid()
      ensures concordanceTable.slots[..] ==
                TextSlots(Empties(StartSize), TextWords(lines), stopTable.Contents().Keys, isNumber)
      ensures concordanceTable.lossless == TextKeeps(Empties(StartSize), TextWords(lines), stopTable.Contents().Keys, isNumber)
      ensures Consistent(concordanceTable.Contents(), TextWords(lines), stopTable.Contents().Keys, isNumber)
      ensures concordanceTable.lossless ==>
                concordanceTable.Contents() == ConcordanceOf(lines, stopTable.Contents().Keys, isNumber)
      ensures |ConcordanceOf(lines, stopTable.Contents().Keys, isNumber)| <= StartSize ==> concordanceTable.lossless
    {
      ghost var stop := stopTable.Contents().Keys;
      ghost var text := TextWords(lines);
      var table := new HashTable<seq<nat>>(StartSize);
      ghost var empty := table.slots[..];
      assert Placed(empty) && Count(empty) == 0 && Contents(empty) == map[];
      var lineNum: nat := 1;
      for i := 0 to |lines|
        invariant lineNum == i + 1 && stopTable == old(stopTable) && stopTable.Contents().Keys == stop
        invariant fresh(table) && fresh(table.slots) && table.Valid()
        invariant table.slots[..] == TextSlots(empty, text[..i], stop, isNumber)
        invariant table.lossless == TextKeeps(empty, text[..i], stop, isNumber)
      {
        ghost var before := text[..i];
        assert |before| == i < |text| && before == text[..|before|] && text[|before|] == LineWords(lines[i]);
        TextSlotsConsistent(empty, before, stop, isNumber);
        TextStep(empty, text, i, stop, isNumber);
        HandleLine(table, lines[i], lineNum, isNumber, before, text, stop);
        lineNum := lineNum + 1;
      }
      assert text[..|lines|] == text;
      assert Consistent(table.Contents(), text, stop, isNumber) by {
        TextSlotsConsistent(empty, text, stop, isNumber);
      }
      assert table.lossless ==> table.Contents() == Index(text, stop, isNumber) by {
        if table.lossless {
          TextSlotsContents(empty, text, stop, isNumber);
        }
      }
      assert |Index(text, stop, isNumber)| <= StartSize ==> table.lossless by {
        if |Index(text, stop, isNumber)| <= StartSize {
          TextKeepsInText(empty, text, text, stop, isNumber);
        }
      }
      concordanceTable := table;
    }

    /**
     * The body of load_concordance_table's loop over the lines, for line
     * lineNum: process the line, split it, and handle each word in turn.
     * text is the whole file, of which before are the lines already handled.
     */
    method HandleLine(table: HashTable<seq<nat>>, line: string, lineNum: nat, isNumber: string -> bool,
                      ghost before: seq<seq<string>>, ghost text: seq<seq<string>>, ghost stop: set<string>)
      requires stopTable != null && stopTable.Valid() && table.Valid()
      requires stop == stopTable.Contents().Keys
      requires lineNum == |before| + 1
      requires |before| < |text| && before == text[..|before|] && text[|before|] == LineWords(line)
      requires Consistent(table.Contents(), before, stop, isNumber)
      modifies table, table.slots
      ensures table.Valid() && (table.slots == old(table.slots) || fresh(table.slots))
      ensures table.slots[..] == LineSlots(old(table.slots[..]), LineWords(line), lineNum, stop, isNumber)
      ensures table.lossless == (old(table.lossless) && LineKeeps(old(table.slots[..]), LineWords(line), lineNum, stop, isNumber))
      ensures Consistent(table.Contents(), before + [LineWords(line)], stop, isNumber)
      ensures table.lossless ==>
                old(table.lossless) && table.Contents() == AddWords(old(table.Contents()), LineWords(line), lineNum, stop, isNumber)
      ensures |Index(text, stop, isNumber)| <= 191 && old(SmallTable(table)) ==>
                table.lossless == old(table.lossless) && SmallTable(table)
    {
      var newLine := ProcessLine(line);
      var split := Split(newLine);
      ghost var upTo := before + [split];
      assert upTo == text[..|upTo|];
      ghost var s0 := table.slots[..];
      ConsistentExtends(table.Contents(), before, split, stop, isNumber);
      for j := 0 to |split|
        invariant table.Valid() && (table.slots == old(table.slots) || fresh(table.slots))
        invariant table.slots[..] == LineSlots(s0, split[..j], lineNum, stop, isNumber)
        invariant table.lossless == (old(table.lossless) && LineKeeps(s0, split[..j], lineNum, stop, isNumber))
        invariant Consistent(table.Contents(), upTo, stop, isNumber)
      {
        LineSlotsStep(s0, split, j, lineNum, stop, isNumber);
        LineKeepsStep(s0, split, j, lineNum, stop, isNumber);
        HandleWord(table, split[j], lineNum, isNumber, upTo, text, stop);
      }
      assert split[..|split|] == split;
      if table.lossless {
        LineSlotsContents(s0, split, lineNum, stop, isNumber);
      }
      if |Index(text, stop, isNumber)| <= 191 && old(SmallTable(table)) {
        LineKeepsInText(s0, split, upTo, text, stop, isNumber);
      }
    }

    /**
     * The body of load_concordance_table's inner loop, for one word of line
     * lineNum: skip it if it is a stop word or a number; if its list is
     * non-empty, append lineNum in place unless the list holds it already;
     * otherwise insert the list [lineNum].  upTo are the lines so far,
     * ending with this word's line, and text the whole file.
     */
    method HandleWord(table: HashTable<seq<nat>>, word: string, lineNum: nat, isNumber: string -> bool,
                      ghost upTo: seq<seq<string>>, ghost text: seq<seq<string>>, ghost stop: set<string>)
      requires stopTable != null && stopTable.Valid() && table.Valid()
      requires stop == stopTable.Contents().Keys
      requires upTo != [] && word in upTo[|upTo| - 1] && lineNum == |upTo|
      requires |upTo| <= |text| && upTo == text[..|upTo|]
      requires Consistent(table.Contents(), upTo, stop, isNumber)
      modifies table, table.slots
      ensures table.Valid() && (table.slots == old(table.slots) || fresh(table.slots))
      ensures table.slots[..] == WordSlots(old(table.slots[..]), word, lineNum, stop, isNumber)
      ensures table.lossless == (old(table.lossless) && WordKeeps(old(table.slots[..]), word, lineNum, stop, isNumber))
      ensures Consistent(table.Contents(), upTo, stop, isNumber)
      ensures table.lossless ==>
                old(table.lossless) && table.Contents() == AddWord(old(table.Contents()), word, lineNum, stop, isNumber)
      ensures |Index(text, stop, isNumber)| <= 191 && old(SmallTable(table)) ==>
                WordKeeps(old(table.slots[..]), word, lineNum, stop, isNumber) && SmallTable(table)
    {
      ghost var m := table.Contents();
      ghost var s := table.slots[..];
      if |Index(text, stop, isNumber)| <= 191 && SmallTable(table) {
        WordKeepsInText(s, word, lineNum, stop, isNumber, upTo, text);
      }
      var inStop := stopTable.InTable(word);
      if !inStop {
        if !isNumber(word) {
          var current := table.GetValue(word);
          if current.Some? && current.value != [] {
            var lineNumbers := table.GetValue(word);
            if lineNumbers.Some? {
              if lineNum !in lineNumbers.value {
                var extended := lineNumbers.value + [lineNum];
                var _ := StoredKeyStops(s, word);
                table.Put(word, extended);
              }
            }
          } else {
            table.Insert(word, [lineNum]);
          }
        }
      }
      WordSlotsConsistent(s, word, upTo, stop, isNumber);
      if table.lossless {
        WordSlotsContents(s, word, lineNum, stop, isNumber);
      }
    }

    /**
     * write_concordance: collect the (word, list) pair of every occupied
     * slot in slot order, sort them, and write "word: n1 n2 ..." for each,
     * with a newline before the next entry when its word differs.
     */
    method WriteConcordance() returns (out: string)
      requires concordanceTable.Valid()
      ensures out == Report(SortEntries(Entries(concordanceTable.slots[..])))
      ensures out == JoinLines(Lines(SortEntries(Entries(concordanceTable.slots[..]))))
      ensures SortedWords(SortEntries(Entries(concordanceTable.slots[..])))
    {
      var table := concordanceTable.slots;
      var lst: seq<Entry> := [];
      for i := 0 to table.Length
        invariant lst == Entries(table[..i])
      {
        assert table[..i + 1][..i] == table[..i];
        if table[i].Full? {
          lst := lst + [(table[i].key, table[i].value)];
        }
      }
      assert table[..] == table[..table.Length];
      var sorted := SortEntries(lst);
      out := "";
      for i := 0 to |sorted|
        invariant out == RenderUpTo(sorted, i)
      {
        var word := sorted[i].0;
        var lineNums := sorted[i].1;
        var joined := JoinNums(lineNums);
        out := out + (word + ": " + joined);
        if i < |sorted| - 1 && word != sorted[i + 1].0 {
          out := out + "\n";
        }
      }
      assert out == Report(SortEntries(Entries(table[..])));
      ghost var es := SortEntries(Entries(table[..]));
      assert out == JoinLines(Lines(es)) && SortedWords(es) by {
        TableReportLines(table[..]);
      }
    }
  }
}
