/** The scripts that turn a file into a C byte array, sixteen bytes a line, and a reader of such arrays. */
module HexArray {
  import opened Words

  type Byte = int

  const PER_LINE := 16

  /** A named array and its bytes. */
  datatype Array = Array(name: string, data: seq<Byte>)

  predicate Bytes(s: seq<Byte>) {
    forall i :: 0 <= i < |s| ==> 0 <= s[i] < 256
  }

  function HexDigit(d: int): char
    requires 0 <= d < 16
  {
    if d < 10 then ('0' as int + d) as char else ('a' as int + d - 10) as char
  }

  /** A byte as bytes.hex() shows it: two digits. */
  function HexByte(b: Byte): string {
    [HexDigit(b / 16 % 16), HexDigit(b % 16)]
  }

  function Entries(line: seq<Byte>): string {
    if line == [] then "" else "0x" + HexByte(line[0]) + ", " + Entries(line[1..])
  }

  function Line(line: seq<Byte>): string {
    "    " + Entries(line) + "\n"
  }

  function Least(a: int, b: int): int {
    if a <= b then a else b
  }

  /** The lines of the array for these bytes. */
  function Body(data: seq<Byte>): string
    decreases |data|
  {
    if data == [] then ""
    else var n := Least(PER_LINE, |data|); Line(data[..n]) + Body(data[n..])
  }

  function Opening(name: string): string {
    "const uint8_t " + name + "[] =\n" + "{\n"
  }

  function Closing(name: string): string {
    "};\n" + "const uint32_t " + name + "_SIZE = sizeof(" + name + ");\n\n"
  }

  /** The text of one array. */
  function ArrayText(a: Array): string {
    Opening(a.name) + Body(a.data) + Closing(a.name)
  }

  function ArrayTexts(arrays: seq<Array>): string {
    if arrays == [] then "" else ArrayText(arrays[0]) + ArrayTexts(arrays[1..])
  }

  class TextFile {
    var text: string

    constructor ()
      ensures text == ""
    {
      text := "";
    }

    method Write(s: string)
      modifies this
      ensures text == old(text) + s
    {
      text := text + s;
    }
  }

  /** The inner loop of _process_data. */
  method WriteLine(data: seq<Byte>, outfile: TextFile)
    modifies outfile
    ensures outfile.text == old(outfile.text) + Line(data)
  {
    hide Entries, HexByte;
    outfile.Write("    ");
    var item := 0;
    ghost var entries := "";
    while item < |data|
      invariant 0 <= item <= |data|
      invariant outfile.text == old(outfile.text) + ("    " + entries)
      invariant entries + Entries(data[item..]) == Entries(data)
    {
      NextEntry(data, item);
      outfile.Write("0x" + HexByte(data[item]) + ", ");
      entries := entries + ("0x" + HexByte(data[item]) + ", ");
      item := item + 1;
    }
    NoEntries();
    assert data[item..] == [] && entries == Entries(data);
    outfile.Write("\n");
  }

  /** _process_data: append the whole array to the output. */
  method ProcessData(infile: seq<Byte>, outfile: TextFile, name: string)
    modifies outfile
    ensures outfile.text == old(outfile.text) + ArrayText(Array(name, infile))
  {
    hide Opening, Closing, Line, Entries, Body;
    outfile.Write(Opening(name));
    var position := 0;
    ghost var before := outfile.text;
    ghost var written := "";
    while true
      invariant 0 <= position <= |infile|
      invariant outfile.text == before + written && written + Body(infile[position..]) == Body(infile)
      decreases |infile| - position
    {
      var data := infile[position..position + Least(PER_LINE, |infile| - position)];
      if |data| == 0 {
        break;
      }
      NextLine(infile, position);
      WriteLine(data, outfile);
      written := written + Line(data);
      position := position + |data|;
    }
    NoLines(infile, position);
    outfile.Write(Closing(name));
  }

  /** The three arrays of the credentials file, one after another. */
  method WriteCredentials(key: Array, certificate: Array, rootCa: Array, outfile: TextFile)
    modifies outfile
    ensures outfile.text == old(outfile.text) + ArrayTexts([key, certificate, rootCa])
  {
    hide Opening, Closing, Body;
    ThreeTexts(key, certificate, rootCa);
    ProcessData(key.data, outfile, key.name);
    ProcessData(certificate.data, outfile, certificate.name);
    ProcessData(rootCa.data, outfile, rootCa.name);
  }

  lemma ThreeTexts(a: Array, b: Array, c: Array)
    ensures ArrayTexts([a, b, c]) == ArrayText(a) + ArrayText(b) + ArrayText(c)
  {
    hide ArrayText;
    assert [a, b, c][1..] == [b, c] && [b, c][1..] == [c] && [c][1..] == [];
    assert ArrayTexts([c]) == ArrayText(c);
    assert ArrayTexts([b, c]) == ArrayText(b) + ArrayText(c);
  }

  lemma NextLine(data: seq<Byte>, position: nat)
    requires position < |data|
    ensures var n := Least(PER_LINE, |data| - position);
            Body(data[position..]) == Line(data[position..position + n]) + Body(data[position + n..])
  {
    var n := Least(PER_LINE, |data| - position);
    assert data[position..][..n] == data[position..position + n] && data[position..][n..] == data[position + n..];
  }

  lemma NoLines(data: seq<Byte>, position: nat)
    requires position <= |data|
    ensures position == |data| ==> Body(data[position..]) == ""
  {
  }

  lemma NextEntry(line: seq<Byte>, item: nat)
    requires item < |line|
    ensures Entries(line[item..]) == ("0x" + HexByte(line[item]) + ", ") + Entries(line[item + 1..])
  {
    assert line[item..][1..] == line[item + 1..];
  }

  lemma NoEntries()
    ensures Entries([]) == ""
  {
  }

  function DigitValue(c: char): (v: int)
    ensures -1 <= v < 16
  {
    if '0' <= c <= '9' then c as int - '0' as int
    else if 'a' <= c <= 'f' then c as int - 'a' as int + 10
    else if 'A' <= c <= 'F' then c as int - 'A' as int + 10
    else -1
  }

  /** The lines of an initializer and the text behind its closing brace. */
  datatype Scanned = Scanned(lines: seq<seq<Byte>>, rest: string)

  function Prepended(line: seq<Byte>, r: Option<Scanned>): Option<Scanned> {
    match r
    case None => None
    case Some(scanned) => Some(scanned.(lines := [line] + scanned.lines))
  }

  /** Read initializer lines up to the closing brace: the entries of each line, given those already read of
      the current one. Blanks are skipped; every entry is 0x, two digits and a comma. */
  function ReadLines(s: string, line: seq<Byte>): (r: Option<Scanned>)
    ensures r.Some? ==> |r.value.rest| < |s|
    decreases |s|
  {
    if s == "" then None
    else if s[0] == '}' then if line == [] then Some(Scanned([], s[1..])) else None
    else if s[0] == ' ' then ReadLines(s[1..], line)
    else if s[0] == '\n' then Prepended(line, ReadLines(s[1..], []))
    else if |s| >= 5 && s[0] == '0' && s[1] == 'x' && DigitValue(s[2]) >= 0 && DigitValue(s[3]) >= 0 && s[4] == ',' then
      ReadLines(s[5..], line + [16 * DigitValue(s[2]) + DigitValue(s[3])])
    else None
  }

  /** No line of the text ends with an opening brace. */
  predicate NoStart(text: string) {
    forall i :: 0 <= i < |text| - 1 ==> text[i] != '{' || text[i + 1] != '\n'
  }

  predicate NoneAcross(text: string, rest: string) {
    text != "" && rest != "" && text[|text| - 1] == '{' ==> rest[0] != '\n'
  }

  /** Read every array of a text, line by line: an opening brace at the end of a line starts one. */
  function ReadFile(s: string): Option<seq<seq<seq<Byte>>>>
    decreases |s|
  {
    if s == "" then Some([])
    else if |s| < 2 || s[0] != '{' || s[1] != '\n' then ReadFile(s[1..])
    else
      match ReadLines(s[2..], [])
      case None => None
      case Some(first) =>
        match ReadFile(first.rest)
        case None => None
        case Some(arrays) => Some([first.lines] + arrays)
  }

  function Flattened(lines: seq<seq<Byte>>): seq<Byte> {
    if lines == [] then [] else lines[0] + Flattened(lines[1..])
  }

  /** Sixteen entries in every line but the last, and no empty line. */
  predicate FullLines(lines: seq<seq<Byte>>) {
    && (forall i :: 0 <= i < |lines| - 1 ==> |lines[i]| == 16)
    && (lines != [] ==> 1 <= |lines[|lines| - 1]| <= 16)
  }

  /** The lines hold the bytes, in the fewest lines possible, all full but the last. */
  predicate Show(lines: seq<seq<Byte>>, data: seq<Byte>) {
    Flattened(lines) == data && FullLines(lines) && |lines| == (|data| + 15) / 16
  }

  lemma HexRead(b: Byte)
    requires 0 <= b < 256
    ensures var h := HexByte(b);
            DigitValue(h[0]) >= 0 && DigitValue(h[1]) >= 0 && 16 * DigitValue(h[0]) + DigitValue(h[1]) == b
  {
  }

  lemma {:induction false} EntriesRead(entries: seq<Byte>, rest: string, line: seq<Byte>)
    requires Bytes(entries)
    ensures ReadLines(Entries(entries) + rest, line) == ReadLines(rest, line + entries)
    decreases |entries|
  {
    hide ReadLines;
    if entries == [] {
      assert Entries(entries) + rest == rest && line + entries == line;
    } else {
      var tail := Entries(entries[1..]) + rest;
      assert Entries(entries) + rest == "0x" + HexByte(entries[0]) + ", " + tail;
      EntryRead(entries[0], tail, line);
      EntriesRead(entries[1..], rest, line + [entries[0]]);
      assert line + [entries[0]] + entries[1..] == line + entries;
    }
  }

  lemma EntryRead(b: Byte, tail: string, line: seq<Byte>)
    requires 0 <= b < 256
    ensures ReadLines("0x" + HexByte(b) + ", " + tail, line) == ReadLines(tail, line + [b])
  {
    var s := "0x" + HexByte(b) + ", " + tail;
    HexRead(b);
    assert s[5..] == " " + tail;
    assert s[5..][1..] == tail;
  }

  lemma LineRead(entries: seq<Byte>, rest: string)
    requires Bytes(entries)
    ensures ReadLines(Line(entries) + rest, []) ==
            Prepended(entries, ReadLines(rest, []))
  {
    var tail := Entries(entries) + ("\n" + rest);
    BlanksRead(tail);
    assert Line(entries) + rest == "    " + tail;
    EntriesRead(entries, "\n" + rest, []);
    assert [] + entries == entries && ("\n" + rest)[1..] == rest;
  }

  lemma BlanksRead(tail: string)
    ensures ReadLines("    " + tail, []) == ReadLines(tail, [])
  {
    assert ("    " + tail)[1..] == "   " + tail;
    assert ("   " + tail)[1..] == "  " + tail;
    assert ReadLines("    " + tail, []) == ReadLines("  " + tail, []);
    assert ("  " + tail)[1..] == " " + tail;
    assert (" " + tail)[1..] == tail;
    assert ReadLines("  " + tail, []) == ReadLines(tail, []);
  }

  lemma {:induction false} BodyRead(data: seq<Byte>, rest: string)
    requires Bytes(data)
    ensures var r := ReadLines(Body(data) + "}" + rest, []);
            r.Some? && Show(r.value.lines, data) && r.value.rest == rest
    decreases |data|
  {
    hide ReadLines, Line;
    if data == [] {
      NoneRead(rest);
      assert Body(data) + "}" + rest == "}" + rest;
    } else {
      var n := Least(PER_LINE, |data|);
      BodyRead(data[n..], rest);
      var tail := Body(data[n..]) + "}" + rest;
      LineRead(data[..n], tail);
      assert Body(data) + "}" + rest == Line(data[..n]) + tail;
      OneMoreLine(data, ReadLines(tail, []).value.lines);
    }
  }

  lemma OneMoreLine(data: seq<Byte>, lines: seq<seq<Byte>>)
    requires data != [] && Show(lines, data[Least(PER_LINE, |data|)..])
    ensures Show([data[..Least(PER_LINE, |data|)]] + lines, data)
  {
    var n := Least(PER_LINE, |data|);
    var all := [data[..n]] + lines;
    assert all[1..] == lines;
    assert data == data[..n] + data[n..];
  }

  lemma NoneRead(rest: string)
    ensures ReadLines("}" + rest, []) == Some(Scanned([], rest))
  {
    assert ("}" + rest)[1..] == rest;
  }

  lemma {:induction false} TextSkipped(text: string, rest: string)
    requires NoStart(text) && NoneAcross(text, rest)
    ensures ReadFile(text + rest) == ReadFile(rest)
    decreases |text|
  {
    if text == "" {
      assert text + rest == rest;
    } else {
      assert |text| > 1 ==> text[0] != '{' || text[0 + 1] != '\n';
      forall i | 0 <= i < |text[1..]| - 1
        ensures text[1..][i] != '{' || text[1..][i + 1] != '\n'
      {
        assert text[i + 1] != '{' || text[i + 1 + 1] != '\n';
      }
      TextSkipped(text[1..], rest);
      assert (text + rest)[1..] == text[1..] + rest;
    }
  }

  lemma HeadingSkipped(name: string, rest: string)
    requires NoStart(name)
    ensures ReadFile("const uint8_t " + name + "[] =\n" + rest) == ReadFile(rest)
  {
    hide ReadFile;
    var tail := "[] =\n" + rest;
    TextSkipped("const uint8_t ", name + tail);
    TextSkipped(name, tail);
    TextSkipped("[] =\n", rest);
    assert "const uint8_t " + name + "[] =\n" + rest == "const uint8_t " + (name + tail);
  }

  lemma ClosingSkipped(name: string, rest: string)
    requires NoStart(name)
    ensures ReadFile(Closing(name)[1..] + rest) == ReadFile(rest)
  {
    hide ReadFile, NoStart, Closing, NoneAcross;
    var t4 := ");\n\n" + rest;
    var t3 := name + t4;
    var t2 := "_SIZE = sizeof(" + t3;
    var t1 := name + t2;
    ClosingParts(name, rest);
    NamesFollowed(name, rest);
    LiteralsSkipped(t1, t3, rest);
    TextSkipped(name, t2);
    TextSkipped(name, t4);
  }

  lemma ClosingParts(name: string, rest: string)
    ensures Closing(name)[1..] + rest ==
            ";\nconst uint32_t " + (name + ("_SIZE = sizeof(" + (name + (");\n\n" + rest))))
  {
  }

  lemma NamesFollowed(name: string, rest: string)
    ensures NoneAcross(name, "_SIZE = sizeof(" + (name + (");\n\n" + rest)))
    ensures NoneAcross(name, ");\n\n" + rest)
  {
  }

  lemma LiteralsSkipped(t1: string, t3: string, rest: string)
    ensures ReadFile(";\nconst uint32_t " + t1) == ReadFile(t1)
    ensures ReadFile("_SIZE = sizeof(" + t3) == ReadFile(t3)
    ensures ReadFile(");\n\n" + rest) == ReadFile(rest)
  {
    hide ReadFile;
    TextSkipped(";\nconst uint32_t ", t1);
    TextSkipped("_SIZE = sizeof(", t3);
    TextSkipped(");\n\n", rest);
  }

  /** An array at the front of a text is read first, and then what follows it. */
  lemma ArrayRead(a: Array, rest: string)
    requires Bytes(a.data) && NoStart(a.name)
    ensures var front, behind := ReadFile(ArrayText(a) + rest), ReadFile(rest);
            && (front.Some? <==> behind.Some?)
            && (front.Some? ==> front.value != [] && Show(front.value[0], a.data) && front.value[1..] == behind.value)
  {
    hide ReadLines, Body, Show;
    var heading := "const uint8_t " + a.name + "[] =\n";
    var closing := Closing(a.name)[1..];
    var body := Body(a.data) + "}" + (closing + rest);
    assert Closing(a.name) == "}" + closing;
    assert ArrayText(a) + rest == heading + ("{\n" + body);
    BodyRead(a.data, closing + rest);
    HeadingSkipped(a.name, "{\n" + body);
    ClosingSkipped(a.name, rest);
    assert ("{\n" + body)[2..] == body;
    hide Closing, Opening, ArrayText;
  }

  lemma {:induction false} ArraysRead(arrays: seq<Array>, rest: string)
    requires forall a :: a in arrays ==> Bytes(a.data) && NoStart(a.name)
    requires NoStart(rest)
    ensures var read := ReadFile(ArrayTexts(arrays) + rest);
            && read.Some? && |read.value| == |arrays|
            && forall i :: 0 <= i < |arrays| ==> Show(read.value[i], arrays[i].data)
    decreases |arrays|
  {
    hide ReadLines, ArrayText, Show, ReadFile;
    if arrays == [] {
      NothingRead(rest);
      assert ArrayTexts(arrays) + rest == rest;
    } else {
      var tail := ArrayTexts(arrays[1..]) + rest;
      assert ArrayTexts(arrays) + rest == ArrayText(arrays[0]) + tail;
      ArrayRead(arrays[0], tail);
      ArraysRead(arrays[1..], rest);
    }
  }

  lemma NothingRead(rest: string)
    requires NoStart(rest)
    ensures ReadFile(rest) == Some([])
  {
    TextSkipped(rest, "");
    assert rest + "" == rest;
  }

  lemma NoLineEndFirst(arrays: seq<Array>)
    ensures if arrays == [] then ArrayTexts(arrays) == "" else ArrayTexts(arrays) != "" && ArrayTexts(arrays)[0] == 'c'
  {
  }

  /** Reading a file back gives every array in it, whatever stands before and behind them: the same bytes, in the fewest
      lines that hold them, all full but the last. */
  lemma FileReadBack(before: string, arrays: seq<Array>, behind: string)
    requires forall a :: a in arrays ==> Bytes(a.data) && NoStart(a.name)
    requires NoStart(before) && NoStart(behind) && (arrays == [] ==> NoneAcross(before, behind))
    ensures var read := ReadFile(before + ArrayTexts(arrays) + behind);
            && read.Some? && |read.value| == |arrays|
            && forall i :: 0 <= i < |arrays| ==> Show(read.value[i], arrays[i].data)
  {
    hide ReadFile, ArrayTexts, Show;
    NoLineEndFirst(arrays);
    ArraysRead(arrays, behind);
    TextSkipped(before, ArrayTexts(arrays) + behind);
    assert before + ArrayTexts(arrays) + behind == before + (ArrayTexts(arrays) + behind);
  }

  /** One declaration read from the front of a text: the array's name, its lines, and the text behind its size. */
  datatype Declared = Declared(name: string, lines: seq<seq<Byte>>, rest: string)

  predicate StartsWith(s: string, prefix: string) {
    |prefix| <= |s| && s[..|prefix|] == prefix
  }

  function Identifier(s: string): (name: string)
    ensures |name| <= |s|
  {
    if s == "" || s[0] == '[' then "" else [s[0]] + Identifier(s[1..])
  }

  /** What follows the brace that closes an initializer: a constant that is named after the array and takes its size. */
  function SizeConstant(name: string): string {
    ";\nconst uint32_t " + name + "_SIZE = sizeof(" + name + ");\n\n"
  }

  /** Read a whole declaration of an array of constant bytes: its name, its initializer, and its size constant. */
  function ReadDeclaration(s: string): Option<Declared> {
    if !StartsWith(s, "const uint8_t ") then None
    else var name := Identifier(s[14..]); ReadInitializer(name, s[14..][|name|..])
  }

  function ReadInitializer(name: string, s: string): Option<Declared> {
    if !StartsWith(s, "[] =\n{\n") then None
    else
      match ReadLines(s[7..], [])
      case None => None
      case Some(scanned) => ReadSize(name, scanned.lines, scanned.rest)
  }

  function ReadSize(name: string, lines: seq<seq<Byte>>, s: string): Option<Declared> {
    var size := SizeConstant(name);
    if StartsWith(s, size) then Some(Declared(name, lines, s[|size|..])) else None
  }

  function ReadDeclarations(s: string, n: nat): Option<seq<Declared>>
    decreases n
  {
    if n == 0 then Some([])
    else
      match ReadDeclaration(s)
      case None => None
      case Some(first) =>
        match ReadDeclarations(first.rest, n - 1)
        case None => None
        case Some(others) => Some([first] + others)
  }

  lemma {:induction false} IdentifierRead(name: string, rest: string)
    requires '[' !in name && rest != "" && rest[0] == '['
    ensures Identifier(name + rest) == name
    decreases |name|
  {
    if name == "" {
      assert name + rest == rest;
    } else {
      IdentifierRead(name[1..], rest);
      assert (name + rest)[1..] == name[1..] + rest;
    }
  }

  lemma PrefixRead(prefix: string, rest: string)
    ensures StartsWith(prefix + rest, prefix) && (prefix + rest)[|prefix|..] == rest
  {
  }

  /** A declaration is read back with its name, its bytes and its size constant, and what follows it is left. */
  lemma DeclarationRead(a: Array, rest: string)
    requires Bytes(a.data) && '[' !in a.name
    ensures var r := ReadDeclaration(ArrayText(a) + rest);
            r.Some? && r.value.name == a.name && Show(r.value.lines, a.data) && r.value.rest == rest
  {
    hide ReadLines, Body, Show, StartsWith, Identifier, SizeConstant, ReadInitializer, Opening, Closing, ArrayText;
    var initializer := Body(a.data) + "}" + (SizeConstant(a.name) + rest);
    var behind := "[] =\n{\n" + initializer;
    Arranged(a, rest);
    PrefixRead("const uint8_t ", a.name + behind);
    IdentifierRead(a.name, behind);
    PrefixRead(a.name, behind);
    InitializerRead(a, rest);
  }

  lemma Arranged(a: Array, rest: string)
    ensures ArrayText(a) + rest ==
            "const uint8_t " + (a.name + ("[] =\n{\n" + (Body(a.data) + "}" + (SizeConstant(a.name) + rest))))
  {
    hide Body, Opening, Closing, SizeConstant;
    OpeningParts(a.name);
    ClosingBrace(a.name);
    Regrouped("const uint8_t ", a.name, "[] =\n{\n", Body(a.data), SizeConstant(a.name), rest);
  }

  lemma OpeningParts(name: string)
    ensures Opening(name) == "const uint8_t " + (name + "[] =\n{\n")
  {
    assert "[] =\n" + "{\n" == "[] =\n{\n";
  }

  lemma ClosingBrace(name: string)
    ensures Closing(name) == "}" + SizeConstant(name)
  {
    var size := "const uint32_t " + name + "_SIZE = sizeof(" + name + ");\n\n";
    assert Closing(name) == "};\n" + size;
    assert SizeConstant(name) == ";\n" + size;
  }

  lemma Regrouped(before: string, name: string, between: string, body: string, size: string, rest: string)
    ensures before + (name + between) + body + ("}" + size) + rest
         == before + (name + (between + (body + "}" + (size + rest))))
  {
    assert before + (name + between) + body + ("}" + size) + rest
        == before + (name + between) + (body + "}" + (size + rest));
  }

  lemma InitializerRead(a: Array, rest: string)
    requires Bytes(a.data)
    ensures var r := ReadInitializer(a.name, "[] =\n{\n" + (Body(a.data) + "}" + (SizeConstant(a.name) + rest)));
            r.Some? && r.value.name == a.name && Show(r.value.lines, a.data) && r.value.rest == rest
  {
    hide ReadLines, Body, Show, StartsWith, SizeConstant;
    PrefixRead("[] =\n{\n", Body(a.data) + "}" + (SizeConstant(a.name) + rest));
    BodyRead(a.data, SizeConstant(a.name) + rest);
    PrefixRead(SizeConstant(a.name), rest);
  }

  /** The declarations of a file are read back in order, each under its own name. */
  lemma {:induction false} DeclarationsRead(arrays: seq<Array>, rest: string)
    requires forall a :: a in arrays ==> Bytes(a.data) && '[' !in a.name
    ensures var r := ReadDeclarations(ArrayTexts(arrays) + rest, |arrays|);
            && r.Some? && |r.value| == |arrays|
            && forall i :: 0 <= i < |arrays| ==>
                             r.value[i].name == arrays[i].name && Show(r.value[i].lines, arrays[i].data)
    decreases |arrays|
  {
    hide ReadDeclaration, ArrayText, Show;
    if arrays != [] {
      var tail := ArrayTexts(arrays[1..]) + rest;
      assert ArrayTexts(arrays) + rest == ArrayText(arrays[0]) + tail;
      DeclarationRead(arrays[0], tail);
      DeclarationsRead(arrays[1..], rest);
    }
  }
}
