// Parsing of one trace line of the MSRC dumps into an (lba, read/write) event.
// Two dialects exist: comma-separated lines, and whitespace-separated lines
// with a request type in the second field.

module IngestParse {
  import opened Common

  /** A parsed line: the 4 KiB logical block and whether it is a write. */
  datatype Event = Event(lba: nat, write: bool)

  // ---------------------------------------------------------------------
  // Text helpers.

  /**
   * The white space and line terminators of ECMAScript, which both `trim`
   * and the `\s` of `/\s+/` remove: tab, LF, VT, FF, CR, space, NBSP,
   * U+1680, U+2000..U+200A, LS, PS, U+202F, U+205F, U+3000 and the BOM.
   */
  predicate IsSpace(c: char)
  {
    ('\t' <= c <= '\r') || c == ' ' || c == '\U{A0}' || c == '\U{1680}'
    || ('\U{2000}' <= c <= '\U{200A}') || c == '\U{2028}' || c == '\U{2029}'
    || c == '\U{202F}' || c == '\U{205F}' || c == '\U{3000}' || c == '\U{FEFF}'
  }

  predicate NoSpace(s: string)
  {
    forall i :: 0 <= i < |s| ==> !IsSpace(s[i])
  }

  function TrimStart(s: string): (r: string)
    ensures |r| <= |s| && r == s[|s| - |r|..]
    ensures r == [] || !IsSpace(r[0])
  {
    if s != [] && IsSpace(s[0]) then TrimStart(s[1..]) else s
  }

  function TrimEnd(s: string): (r: string)
    ensures |r| <= |s| && r == s[..|r|]
    ensures r == [] || !IsSpace(r[|r| - 1])
  {
    if s != [] && IsSpace(s[|s| - 1]) then TrimEnd(s[..|s| - 1]) else s
  }

  /** TrimStart removes white space only. */
  lemma {:induction false} TrimStartRemovesSpace(s: string)
    ensures forall i :: 0 <= i < |s| - |TrimStart(s)| ==> IsSpace(s[i])
  {
    if s != [] && IsSpace(s[0]) {
      TrimStartRemovesSpace(s[1..]);
    }
  }

  /** TrimEnd removes white space only. */
  lemma {:induction false} TrimEndRemovesSpace(s: string)
    ensures forall i :: |TrimEnd(s)| <= i < |s| ==> IsSpace(s[i])
  {
    if s != [] && IsSpace(s[|s| - 1]) {
      TrimEndRemovesSpace(s[..|s| - 1]);
    }
  }

  /** `String.prototype.trim`: white space removed from both ends. */
  function Trim(s: string): (r: string)
  {
    TrimEnd(TrimStart(s))
  }

  /** A string that starts and ends with a non-space character is its own trim. */
  lemma {:induction false} TrimOfTrimmed(s: string)
    requires s == [] || (!IsSpace(s[0]) && !IsSpace(s[|s| - 1]))
    ensures Trim(s) == s
  {
    assert TrimStart(s) == s;
  }

  /** Trimming twice is trimming once. */
  lemma {:induction false} TrimIdempotent(s: string)
    ensures Trim(Trim(s)) == Trim(s)
  {
    var t := Trim(s);
    if t != [] {
      var u := TrimStart(s);
      assert t == u[..|t|];
      assert !IsSpace(t[0]);
      TrimOfTrimmed(t);
    }
  }

  /** Trimming keeps every non-space character, so a comma survives it. */
  lemma {:induction false} TrimKeeps(s: string, i: nat)
    requires i < |s| && !IsSpace(s[i])
    ensures s[i] in Trim(s)
  {
    TrimStartRemovesSpace(s);
    TrimEndRemovesSpace(TrimStart(s));
    var u := TrimStart(s);
    var k := |s| - |u|;
    assert i >= k;
    assert u[i - k] == s[i];
    var t := TrimEnd(u);
    assert i - k < |t|;
    assert t[i - k] == u[i - k];
  }

  /** `s.split(sep)` for a one-character separator: empty fields are kept. */
  function SplitOn(s: string, sep: char): (r: seq<string>)
    ensures |r| >= 1
  {
    if s == [] then [[]]
    else
      var rest := SplitOn(s[1..], sep);
      if s[0] == sep then [[]] + rest else [[s[0]] + rest[0]] + rest[1..]
  }

  /** `parts.join(sep)`. */
  function Join(parts: seq<string>, sep: char): string
  {
    if |parts| <= 1 then (if parts == [] then [] else parts[0])
    else parts[0] + [sep] + Join(parts[1..], sep)
  }

  /** A field without the separator, followed by it: the field comes off first. */
  lemma {:induction false} SplitField(field: string, sep: char, tail: string)
    requires sep !in field
    ensures SplitOn(field + [sep] + tail, sep) == [field] + SplitOn(tail, sep)
  {
    if field == [] {
      assert ([] + [sep] + tail)[1..] == tail;
    } else {
      assert (field + [sep] + tail)[1..] == field[1..] + [sep] + tail;
      SplitField(field[1..], sep, tail);
      assert [field[0]] + field[1..] == field;
    }
  }

  /** A field without the separator is one part. */
  lemma {:induction false} SplitWhole(field: string, sep: char)
    requires sep !in field
    ensures SplitOn(field, sep) == [field]
  {
    if field != [] {
      SplitWhole(field[1..], sep);
      assert [field[0]] + field[1..] == field;
    }
  }

  /** Splitting a join of separator-free fields gives the fields back. */
  lemma {:induction false} SplitJoin(parts: seq<string>, sep: char)
    requires |parts| >= 1
    requires forall i :: 0 <= i < |parts| ==> sep !in parts[i]
    ensures SplitOn(Join(parts, sep), sep) == parts
  {
    if |parts| == 1 {
      SplitWhole(parts[0], sep);
    } else {
      SplitField(parts[0], sep, Join(parts[1..], sep));
      SplitJoin(parts[1..], sep);
      assert parts == [parts[0]] + parts[1..];
    }
  }

  /** The length of the leading run of non-space characters. */
  function WordLen(s: string): (k: nat)
    ensures k <= |s|
    ensures k < |s| ==> IsSpace(s[k])
    ensures s != [] && !IsSpace(s[0]) ==> k >= 1
  {
    if s == [] || IsSpace(s[0]) then 0 else WordLen(s[1..]) + 1
  }

  /** The leading run is free of white space. */
  lemma {:induction false} WordLenNoSpace(s: string)
    ensures NoSpace(s[..WordLen(s)])
  {
    if s != [] && !IsSpace(s[0]) {
      var k := WordLen(s[1..]);
      WordLenNoSpace(s[1..]);
      assert s[..k + 1] == [s[0]] + s[1..][..k];
    }
  }

  /** `s.split(/\s+/)` of a trimmed, non-empty string: its maximal non-space runs. */
  function Words(s: string): (r: seq<string>)
    decreases |s|
  {
    if s == [] then []
    else if IsSpace(s[0]) then Words(s[1..])
    else
      var k := WordLen(s);
      [s[..k]] + Words(s[k..])
  }

  /** Fields joined by single spaces. */
  function Unwords(ws: seq<string>): string
  {
    if |ws| <= 1 then (if ws == [] then [] else ws[0]) else ws[0] + " " + Unwords(ws[1..])
  }

  lemma {:induction false} WordLenOfWord(w: string, tail: string)
    requires NoSpace(w) && (tail == [] || IsSpace(tail[0]))
    ensures WordLen(w + tail) == |w|
  {
    if w != [] {
      assert (w + tail)[1..] == w[1..] + tail;
      WordLenOfWord(w[1..], tail);
    }
  }

  /** Splitting space-joined words gives the words back. */
  lemma {:induction false} WordsUnwords(ws: seq<string>)
    requires forall i :: 0 <= i < |ws| ==> ws[i] != [] && NoSpace(ws[i])
    ensures Words(Unwords(ws)) == ws
  {
    if |ws| == 1 {
      WordLenOfWord(ws[0], []);
      assert ws[0] + [] == ws[0];
      assert ws[0][|ws[0]|..] == [];
    } else if |ws| > 1 {
      var rest := Unwords(ws[1..]);
      var s := ws[0] + " " + rest;
      WordLenOfWord(ws[0], " " + rest);
      assert ws[0] + " " + rest == ws[0] + (" " + rest);
      assert s[..|ws[0]|] == ws[0];
      assert s[|ws[0]|..] == " " + rest;
      assert (" " + rest)[1..] == rest;
      WordsUnwords(ws[1..]);
      assert ws == [ws[0]] + ws[1..];
    }
  }

  /** Any white-space character ends a word, not only the ASCII space. */
  lemma {:induction false} WordsCons(w: string, c: char, rest: string)
    requires w != [] && NoSpace(w) && IsSpace(c)
    ensures Words(w + [c] + rest) == [w] + Words(rest)
  {
    var s := w + [c] + rest;
    WordLenOfWord(w, [c] + rest);
    assert s == w + ([c] + rest);
    assert s[..|w|] == w;
    assert s[|w|..] == [c] + rest;
    assert ([c] + rest)[1..] == rest;
  }

  /** Every word is non-empty and free of white space. */
  lemma {:induction false} WordsAreWords(s: string)
    ensures forall i :: 0 <= i < |Words(s)| ==> Words(s)[i] != [] && NoSpace(Words(s)[i])
    decreases |s|
  {
    if s != [] {
      if IsSpace(s[0]) {
        WordsAreWords(s[1..]);
      } else {
        WordLenNoSpace(s);
        WordsAreWords(s[WordLen(s)..]);
      }
    }
  }

  /** ASCII `toLowerCase`. */
  function AsciiLower(s: string): (r: string)
    ensures |r| == |s|
  {
    if s == [] then []
    else [if 'A' <= s[0] <= 'Z' then (s[0] as int + 32) as char else s[0]] + AsciiLower(s[1..])
  }

  /** `s.includes(t)`. */
  predicate Contains(s: string, t: string)
  {
    t <= s || (s != [] && Contains(s[1..], t))
  }

  // ---------------------------------------------------------------------
  // Numbers.

  predicate IsDigit(c: char) { '0' <= c <= '9' }

  function DecimalValue(s: string): (r: nat)
    requires forall i :: 0 <= i < |s| ==> IsDigit(s[i])
  {
    if s == [] then 0
    else
      assert IsDigit(s[|s| - 1]);
      10 * DecimalValue(s[..|s| - 1]) + (s[|s| - 1] as int - '0' as int)
  }

  /** The decimal digits of n, without leading zeros ("0" for zero). */
  function ToDecimal(n: nat): (r: string)
    ensures r != [] && forall i :: 0 <= i < |r| ==> IsDigit(r[i])
    ensures DecimalValue(r) == n
  {
    var d := ('0' as int + n % 10) as char;
    if n < 10 then [d]
    else
      var r := ToDecimal(n / 10) + [d];
      assert r[..|r| - 1] == ToDecimal(n / 10);
      r
  }

  /** `BigInt(s)` on a string of decimal digits (the empty string is 0); anything else throws. */
  function ParseBigInt(s: string): Option<nat>
  {
    if forall i :: 0 <= i < |s| ==> IsDigit(s[i]) then Some(DecimalValue(s)) else None
  }

  // ---------------------------------------------------------------------
  // Dialects.

  const BLK_TYPES: seq<string> := ["RS", "WS", "R", "W"]

  /** The whitespace dialect: type in field 1, a 512-byte sector in field 2. */
  function ParseBlk(parts: seq<string>): Option<Event>
  {
    if |parts| >= 3 && parts[1] in BLK_TYPES then
      match ParseBigInt(parts[2])
      case None => None
      case Some(sector) => Some(Event(sector / 8, 'W' in parts[1]))
    else None
  }

  /** The CSV dialect: type in field 3, a byte offset in field 4 (its part before any "."). */
  function ParseCsv(parts: seq<string>): Option<Event>
  {
    if |parts| >= 5 then
      match ParseBigInt(SplitOn(parts[4], '.')[0])
      case None => None
      case Some(offset) => Some(Event(offset / 4096, Contains(AsciiLower(parts[3]), "write")))
    else None
  }

  /** The (lba, op) a line yields, or None for a blank or unrecognised line. */
  function ParseLine(raw: string): Option<Event>
  {
    var line := Trim(raw);
    if line == [] then None
    else if ',' in line then ParseCsv(SplitOn(line, ','))
    else ParseBlk(Words(line))
  }

  /** A line with a comma is read as CSV only, never as the whitespace dialect. */
  lemma {:induction false} CommaMeansCsv(raw: string, i: nat)
    requires i < |raw| && raw[i] == ','
    ensures ParseLine(raw) == ParseCsv(SplitOn(Trim(raw), ','))
  {
    TrimKeeps(raw, i);
  }

  /** A trimmed line never parses differently from the untrimmed one. */
  lemma {:induction false} ParseTrimmed(raw: string)
    ensures ParseLine(Trim(raw)) == ParseLine(raw)
  {
    TrimIdempotent(raw);
  }

  /** A CSV record whose fields hold no comma parses to offset / 4096 and "write" in its type. */
  lemma {:induction false} ParseCsvLine(fields: seq<string>, offset: nat)
    requires |fields| >= 5 && fields[4] == ToDecimal(offset)
    requires forall i :: 0 <= i < |fields| ==> ',' !in fields[i]
    requires fields[0] != [] && !IsSpace(fields[0][0])
    requires fields[|fields| - 1] != [] && !IsSpace(fields[|fields| - 1][|fields[|fields| - 1]| - 1])
    ensures ParseLine(Join(fields, ','))
              == Some(Event(offset / 4096, Contains(AsciiLower(fields[3]), "write")))
  {
    var line := Join(fields, ',');
    JoinEnds(fields, ',');
    TrimOfTrimmed(line);
    SplitJoin(fields, ',');
    assert line[|fields[0]|] == ',' by { JoinSecond(fields, ','); }
    assert '.' !in fields[4];
    SplitWhole(fields[4], '.');
  }

  /** A whitespace record parses to sector / 8 and a write exactly for WS and W. */
  lemma {:induction false} ParseBlkLine(fields: seq<string>, sector: nat)
    requires |fields| >= 3 && fields[1] in BLK_TYPES && fields[2] == ToDecimal(sector)
    requires forall i :: 0 <= i < |fields| ==> fields[i] != [] && NoSpace(fields[i]) && ',' !in fields[i]
    ensures ParseLine(Unwords(fields))
              == Some(Event(sector / 8, fields[1] == "WS" || fields[1] == "W"))
  {
    var line := Unwords(fields);
    UnwordsEnds(fields);
    TrimOfTrimmed(line);
    UnwordsNoComma(fields);
    WordsUnwords(fields);
    BlkDialect(line, fields);
    BigIntOfDecimal(sector);
    BlkOf(fields, sector);
    BlkTypeWrite(fields[1]);
  }

  /**
   * Every white-space character separates fields as `/\s+/` does, the no-break
   * space U+00A0 among them: "0", "W" and "8" joined by any one of them is a
   * write of block 1.
   */
  lemma {:induction false} AnySpaceSeparates(c: char)
    requires IsSpace(c)
    ensures ParseLine("0" + [c] + "W" + [c] + "8") == Some(Event(1, true))
  {
    var line := "0" + [c] + "W" + [c] + "8";
    SpacedTrim(c, line);
    SpacedNoComma(c, line);
    SpacedWords(c, line);
    BlkWriteEight();
    BlkDialect(line, ["0", "W", "8"]);
  }

  lemma {:induction false} SpacedTrim(c: char, line: string)
    requires IsSpace(c) && line == "0" + [c] + "W" + [c] + "8"
    ensures Trim(line) == line
  {
    assert |line| == 5 && line[0] == '0' && line[4] == '8';
    TrimOfTrimmed(line);
  }

  lemma {:induction false} SpacedNoComma(c: char, line: string)
    requires IsSpace(c) && line == "0" + [c] + "W" + [c] + "8"
    ensures ',' !in line && line != []
  {
    assert |line| == 5 && line[0] == '0' && line[1] == c && line[2] == 'W' && line[3] == c && line[4] == '8';
  }

  lemma {:induction false} SpacedWords(c: char, line: string)
    requires IsSpace(c) && line == "0" + [c] + "W" + [c] + "8"
    ensures Words(line) == ["0", "W", "8"]
  {
    var tail := "W" + [c] + "8";
    assert Words(tail) == ["W", "8"] by {
      WordsUnwords(["8"]);
      WordsCons("W", c, "8");
    }
    assert line == "0" + [c] + tail;
    WordsCons("0", c, tail);
  }

  lemma {:induction false} BlkWriteEight()
    ensures ParseBlk(["0", "W", "8"]) == Some(Event(1, true))
  {
    assert ParseBigInt("8") == Some(8);
    BlkOf(["0", "W", "8"], 8);
  }

  /** A record whose type is known and whose sector field reads as a number parses to that sector / 8. */
  lemma {:induction false} BlkOf(parts: seq<string>, sector: nat)
    requires |parts| >= 3 && parts[1] in BLK_TYPES && ParseBigInt(parts[2]) == Some(sector)
    ensures ParseBlk(parts) == Some(Event(sector / 8, 'W' in parts[1]))
  {
  }

  /** A trimmed, non-empty line without a comma is read in the whitespace dialect. */
  lemma {:induction false} BlkDialect(line: string, ws: seq<string>)
    requires line != [] && Trim(line) == line && ',' !in line && Words(line) == ws
    ensures ParseLine(line) == ParseBlk(ws)
  {
  }

  /** `BigInt` reads back the decimal digits of n as n. */
  lemma {:induction false} BigIntOfDecimal(n: nat)
    ensures ParseBigInt(ToDecimal(n)) == Some(n)
  {
    var r := ToDecimal(n);
    assert forall i :: 0 <= i < |r| ==> IsDigit(r[i]);
  }

  /** Of the four request types, exactly WS and W contain a 'W'. */
  lemma {:induction false} BlkTypeWrite(t: string)
    requires t in BLK_TYPES
    ensures ('W' in t) <==> (t == "WS" || t == "W")
  {
    if t == "RS" {
      assert t[0] == 'R' && t[1] == 'S';
    } else if t == "R" {
      assert t[0] == 'R';
    } else if t == "WS" {
      assert t[0] == 'W';
    } else {
      assert t[0] == 'W';
    }
  }

  lemma {:induction false} JoinEnds(parts: seq<string>, sep: char)
    requires |parts| >= 1 && parts[0] != [] && parts[|parts| - 1] != []
    ensures Join(parts, sep) != []
    ensures Join(parts, sep)[0] == parts[0][0]
    ensures Join(parts, sep)[|Join(parts, sep)| - 1] == parts[|parts| - 1][|parts[|parts| - 1]| - 1]
  {
    JoinLast(parts, sep);
  }

  lemma {:induction false} JoinLast(parts: seq<string>, sep: char)
    requires |parts| >= 1 && parts[|parts| - 1] != []
    ensures |Join(parts, sep)| >= |parts[|parts| - 1]|
    ensures Join(parts, sep)[|Join(parts, sep)| - 1] == parts[|parts| - 1][|parts[|parts| - 1]| - 1]
  {
    if |parts| > 1 {
      JoinLast(parts[1..], sep);
    }
  }

  lemma {:induction false} JoinSecond(parts: seq<string>, sep: char)
    requires |parts| >= 2
    ensures |parts[0]| < |Join(parts, sep)| && Join(parts, sep)[|parts[0]|] == sep
  {
  }

  lemma {:induction false} UnwordsEnds(ws: seq<string>)
    requires |ws| >= 1 && ws[0] != [] && ws[|ws| - 1] != []
    ensures Unwords(ws) != []
    ensures Unwords(ws)[0] == ws[0][0]
    ensures Unwords(ws)[|Unwords(ws)| - 1] == ws[|ws| - 1][|ws[|ws| - 1]| - 1]
  {
    UnwordsLast(ws);
  }

  lemma {:induction false} UnwordsLast(ws: seq<string>)
    requires |ws| >= 1 && ws[|ws| - 1] != []
    ensures |Unwords(ws)| >= |ws[|ws| - 1]|
    ensures Unwords(ws)[|Unwords(ws)| - 1] == ws[|ws| - 1][|ws[|ws| - 1]| - 1]
  {
    if |ws| > 1 {
      UnwordsLast(ws[1..]);
    }
  }

  lemma {:induction false} UnwordsNoComma(ws: seq<string>)
    requires forall i :: 0 <= i < |ws| ==> ',' !in ws[i]
    ensures ',' !in Unwords(ws)
  {
    if |ws| > 1 {
      UnwordsNoComma(ws[1..]);
    }
  }
}
