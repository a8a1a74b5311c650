/**
 * The camera record parser of `Buffer`: a coordinate file is read as a list
 * of text lines holding one record per 8-line block; line 0 of a block names
 * the camera, lines 3 and 4 hold "lat: ..." and "lon: ...", line 7 is a
 * separator. The result maps each key to its coordinates, a later block
 * overwriting an earlier one with the same key.
 */
module CameraPoints {
  import opened Wrappers
  import opened PyText

  /** The coordinate text of one record, as found after the colon and trimmed. */
  datatype Coord = Coord(lon: string, lat: string)

  /** One parsed record: its key and its coordinates. */
  datatype Entry = Entry(key: string, point: Coord)

  /**
   * Why a block cannot be read. The source raises IndexError in both cases:
   * the block has no line at `offset`, or that line has no ':'.
   */
  datatype ParseError = MissingLine(offset: nat) | MissingColon(offset: nat)

  /** Lines per record block, the separator included. */
  const BlockSize: nat := 8

  /** Number of blocks the parser visits: it starts one at 0, 8, 16, ... while lines remain. */
  function BlockCount(data: seq<string>): nat {
    (|data| + 7) / 8
  }

  /** Block i: the slice data[8i : 8i + 7], cut short by the end of the file. */
  function Block(data: seq<string>, i: nat): (b: seq<string>)
    requires i < BlockCount(data)
    ensures 1 <= |b| <= 7
  {
    var start := 8 * i;
    data[start..if start + 7 < |data| then start + 7 else |data|]
  }

  /** The text after the first ':' (up to any second ':') of a "lat:"/"lon:" line, trimmed. */
  function CoordText(line: string): Option<string> {
    match SecondField(Strip(line, Newline))
    case None => None
    case Some(field) => Some(Strip(field, Whitespace))
  }

  /**
   * A coordinate line yields text exactly when it has a ':'; the text has
   * no ':' and neither starts nor ends with whitespace.
   */
  lemma CoordTextSpec(line: string)
    ensures CoordText(line).Some? <==> ':' in line
    ensures CoordText(line).Some? ==> ':' !in CoordText(line).value
    ensures CoordText(line).Some? && CoordText(line).value != [] ==>
      !IsSpace(CoordText(line).value[0]) && !IsSpace(CoordText(line).value[|CoordText(line).value| - 1])
  {
    var unterminated := Strip(line, Newline);
    StripKeeps(line, Newline, ':');
    SecondFieldSpec(unterminated);
    if SecondField(unterminated).Some? {
      var field := SecondField(unterminated).value;
      StripSpec(field, Whitespace);
      StripKeeps(field, Whitespace, ':');
    }
  }

  /**
   * The value of a coordinate line holding a ':': the text between its
   * first ':' and the next ':' (or the end of the line), with surrounding
   * whitespace removed. The line's terminating newline, if the field runs
   * to it, is whitespace and goes with it.
   */
  lemma CoordTextValue(line: string)
    requires ':' in line
    ensures IndexOf(line, ':', 0) < |line|
    ensures CoordText(line) ==
      Some(Strip(line[IndexOf(line, ':', 0) + 1..IndexOf(line, ':', IndexOf(line, ':', 0) + 1)], Whitespace))
  {
    UnterminatedSecondField(line);
    var f := SecondField(Strip(line, Newline)).value;
    var g := line[IndexOf(line, ':', 0) + 1..IndexOf(line, ':', IndexOf(line, ':', 0) + 1)];
    StripNewlineTail(f, g[|f|..]);
  }

  /**
   * One block read as the source reads it: key from line 0, latitude from
   * line 3, longitude from line 4, failing at the first line that is absent
   * or has no ':'.
   */
  function ParseBlock(point: seq<string>): Result<Entry, ParseError>
    requires |point| >= 1
  {
    var k := Strip(point[0], KeyPadding);
    if |point| < 4 then Err(MissingLine(3))
    else match CoordText(point[3])
      case None => Err(MissingColon(3))
      case Some(lat) =>
        if |point| < 5 then Err(MissingLine(4))
        else match CoordText(point[4])
          case None => Err(MissingColon(4))
          case Some(lon) => Ok(Entry(k, Coord(lon, lat)))
  }

  /**
   * A block parses exactly when it has lines 3 and 4 and both hold a ':';
   * otherwise the error names the first line, in reading order, that is
   * missing or has no ':'. A parsed block's key is line 0 stripped of '.'
   * and newline characters at both ends.
   */
  lemma ParseBlockOutcome(point: seq<string>)
    requires |point| >= 1
    ensures ParseBlock(point).Ok? <==> |point| >= 5 && ':' in point[3] && ':' in point[4]
    ensures ParseBlock(point) == Err(MissingLine(3)) <==> |point| < 4
    ensures ParseBlock(point) == Err(MissingColon(3)) <==> |point| >= 4 && ':' !in point[3]
    ensures ParseBlock(point) == Err(MissingLine(4)) <==> |point| == 4 && ':' in point[3]
    ensures ParseBlock(point) == Err(MissingColon(4)) <==> |point| >= 5 && ':' in point[3] && ':' !in point[4]
    ensures ParseBlock(point).Ok? ==> ParseBlock(point).value.key == Strip(point[0], KeyPadding)
    ensures ParseBlock(point).Ok? ==>
      ParseBlock(point).value.point == Coord(CoordText(point[4]).value, CoordText(point[3]).value)
  {
    if |point| >= 4 {
      CoordTextSpec(point[3]);
    }
    if |point| >= 5 {
      CoordTextSpec(point[4]);
    }
  }

  /** What the parser makes of each block, in file order. */
  function ParsedBlocks(data: seq<string>): (r: seq<Result<Entry, ParseError>>)
    ensures |r| == BlockCount(data)
  {
    seq(BlockCount(data), i requires 0 <= i < BlockCount(data) => ParseBlock(Block(data, i)))
  }

  /**
   * The dictionary after inserting the first n parsed blocks in order, or
   * the error of the first block among them that failed.
   */
  function Insert(parsed: seq<Result<Entry, ParseError>>, n: nat): Result<map<string, Coord>, ParseError>
    requires n <= |parsed|
  {
    if n == 0 then Ok(map[])
    else match Insert(parsed, n - 1)
      case Err(e) => Err(e)
      case Ok(m) =>
        match parsed[n - 1]
        case Err(e) => Err(e)
        case Ok(entry) => Ok(m[entry.key := entry.point])
  }

  /** The key map of the whole file. */
  function Points(data: seq<string>): Result<map<string, Coord>, ParseError> {
    var parsed := ParsedBlocks(data);
    Insert(parsed, |parsed|)
  }

  /** Once a block has failed, later blocks change nothing. */
  lemma {:induction false} FailureSticks(parsed: seq<Result<Entry, ParseError>>, n: nat, m: nat)
    requires n <= m <= |parsed|
    requires Insert(parsed, n).Err?
    ensures Insert(parsed, m) == Insert(parsed, n)
    decreases m - n
  {
    if n < m {
      FailureSticks(parsed, n, m - 1);
    }
  }

  /** Block b starts inside the file exactly when b < BlockCount; the first b starting past its end is BlockCount. */
  lemma BlockArithmetic(n: nat, b: nat)
    ensures 8 * b < n ==> b < (n + 7) / 8
    ensures n <= 8 * b < n + 8 ==> b == (n + 7) / 8
  {
  }

  /**
   * parsed lists what ParseBlock makes of each block of data. (The trigger
   * keeps the parse of a block out of sight until that block is sliced.)
   */
  ghost predicate ParsedAs(data: seq<string>, parsed: seq<Result<Entry, ParseError>>) {
    && |parsed| == BlockCount(data)
    && forall i {:trigger Block(data, i)} :: 0 <= i < |parsed| ==> parsed[i] == ParseBlock(Block(data, i))
  }

  /** ParsedBlocks(data) is the one list that ParsedAs accepts. */
  lemma ParsedAsUnique(data: seq<string>, parsed: seq<Result<Entry, ParseError>>)
    ensures ParsedAs(data, parsed) <==> parsed == ParsedBlocks(data)
  {
    var all := ParsedBlocks(data);
    assert forall i :: 0 <= i < |all| ==> all[i] == ParseBlock(Block(data, i));
    if ParsedAs(data, parsed) {
      assert forall i :: 0 <= i < |all| ==> parsed[i] == all[i];
    }
  }

  /** Reads the block that starts at line `start` (block b), as one iteration of `Buffer` does. */
  method ReadBlock(data: seq<string>, start: nat, ghost b: nat, ghost parsed: seq<Result<Entry, ParseError>>)
    returns (entry: Result<Entry, ParseError>)
    requires ParsedAs(data, parsed)
    requires start == 8 * b < |data|
    ensures b < |parsed| && entry == parsed[b]
  {
    BlockArithmetic(|data|, b);
    var end := start + 8;
    var point := data[start..if end - 1 < |data| then end - 1 else |data|];
    assert point == Block(data, b);
    entry := ParseBlock(point);
  }

  /**
   * Buffer's loop (the key/coordinate part): visit blocks at offsets
   * 0, 8, 16, ..., read key and coordinates, insert into the dictionary.
   * The ghost list `parsed` names what each block parses to, so that the
   * loop is proved against the fold `Insert` over it.
   */
  method ReadRecords(data: seq<string>, ghost parsed: seq<Result<Entry, ParseError>>)
    returns (r: Result<map<string, Coord>, ParseError>)
    requires ParsedAs(data, parsed)
    ensures r == Insert(parsed, |parsed|)
  {
    var start := 0;
    ghost var b := 0;
    var pointDict: map<string, Coord> := map[];
    while start < |data|
      invariant start == 8 * b && start < |data| + 8
      invariant b <= |parsed| && Insert(parsed, b) == Ok(pointDict)
      decreases |data| - start
    {
      var entry := ReadBlock(data, start, b, parsed);
      if entry.Err? {
        FailureSticks(parsed, b + 1, |parsed|);
        return Err(entry.error);
      }
      pointDict := pointDict[entry.value.key := entry.value.point];
      start := start + 8;
      b := b + 1;
    }
    BlockArithmetic(|data|, b);
    return Ok(pointDict);
  }

  /** The key map of a coordinate file, or the error of its first unreadable block. */
  method Buffer(data: seq<string>) returns (r: Result<map<string, Coord>, ParseError>)
    ensures r == Points(data)
  {
    ParsedAsUnique(data, ParsedBlocks(data));
    r := ReadRecords(data, ParsedBlocks(data));
  }

  /**
   * The parser fails exactly when some block fails, and then with the error
   * of the first failing block.
   */
  lemma {:induction false} InsertFailure(parsed: seq<Result<Entry, ParseError>>, n: nat)
    requires n <= |parsed|
    ensures Insert(parsed, n).Err? <==> exists i :: 0 <= i < n && parsed[i].Err?
    ensures Insert(parsed, n).Err? ==>
      exists i :: 0 <= i < n && parsed[i] == Err(Insert(parsed, n).error) &&
                  forall j :: 0 <= j < i ==> parsed[j].Ok?
  {
    if n > 0 {
      InsertFailure(parsed, n - 1);
    }
  }

  /** On success every block parsed and the keys are exactly the blocks' keys. */
  lemma {:induction false} InsertKeys(parsed: seq<Result<Entry, ParseError>>, n: nat)
    requires n <= |parsed|
    requires Insert(parsed, n).Ok?
    ensures forall i :: 0 <= i < n ==> parsed[i].Ok?
    ensures Insert(parsed, n).value.Keys == set i | 0 <= i < n && parsed[i].Ok? :: parsed[i].value.key
  {
    if n > 0 {
      InsertKeys(parsed, n - 1);
      var keys := set i | 0 <= i < n - 1 && parsed[i].Ok? :: parsed[i].value.key;
      assert Insert(parsed, n).value.Keys == keys + {parsed[n - 1].value.key};
    }
  }

  /**
   * On success the map has one entry per distinct key, and each key holds
   * the coordinates of the last block carrying that key.
   */
  lemma {:induction false} InsertContents(parsed: seq<Result<Entry, ParseError>>, n: nat)
    requires n <= |parsed|
    requires Insert(parsed, n).Ok?
    ensures forall i :: 0 <= i < n ==> parsed[i].Ok?
    ensures Insert(parsed, n).value.Keys == set i | 0 <= i < n && parsed[i].Ok? :: parsed[i].value.key
    ensures forall i :: 0 <= i < n && parsed[i].Ok? &&
                        (forall j :: i < j < n && parsed[j].Ok? ==> parsed[j].value.key != parsed[i].value.key) ==>
                        Insert(parsed, n).value[parsed[i].value.key] == parsed[i].value.point
  {
    InsertKeys(parsed, n);
    if n > 0 {
      InsertContents(parsed, n - 1);
      var m := Insert(parsed, n - 1).value;
      var last := parsed[n - 1].value;
      assert Insert(parsed, n).value == m[last.key := last.point];
      forall i | 0 <= i < n && parsed[i].Ok? &&
                 (forall j :: i < j < n && parsed[j].Ok? ==> parsed[j].value.key != parsed[i].value.key)
        ensures parsed[i].value.key in Insert(parsed, n).value &&
                Insert(parsed, n).value[parsed[i].value.key] == parsed[i].value.point
      {
        if i < n - 1 {
          assert parsed[n - 1].value.key != parsed[i].value.key;
          assert parsed[i].value.key in m;
        }
      }
    }
  }

  /** A block's outcome depends on its length and its lines 0, 3 and 4 only. */
  lemma ParseBlockReads(b: seq<string>, b': seq<string>)
    requires |b| == |b'| >= 1 && b[0] == b'[0]
    requires |b| > 3 ==> b[3] == b'[3]
    requires |b| > 4 ==> b[4] == b'[4]
    ensures ParseBlock(b) == ParseBlock(b')
  {
  }

  /** Line k of block i is line 8i + k of the file. */
  lemma BlockLine(data: seq<string>, i: nat, k: nat)
    requires i < BlockCount(data) && k < |Block(data, i)|
    ensures 8 * i + k < |data| && Block(data, i)[k] == data[8 * i + k]
  {
  }

  /**
   * Only lines 0, 3 and 4 of a block are read: two files that agree there
   * (and have the same length) give the same result, whatever their other
   * lines, the separator line 7 among them, hold.
   */
  lemma OnlyKeyAndCoordinateLinesRead(data: seq<string>, data': seq<string>)
    requires |data| == |data'|
    requires forall j :: 0 <= j < |data| && j % 8 in {0, 3, 4} ==> data[j] == data'[j]
    ensures Points(data) == Points(data')
  {
    forall i | 0 <= i < BlockCount(data)
      ensures ParsedBlocks(data)[i] == ParsedBlocks(data')[i]
    {
      var b, b' := Block(data, i), Block(data', i);
      forall k | k in {0, 3, 4} && k < |b|
        ensures b[k] == b'[k]
      {
        BlockLine(data, i, k);
        BlockLine(data', i, k);
        assert (8 * i + k) % 8 == k;
      }
      ParseBlockReads(b, b');
    }
    assert ParsedBlocks(data) == ParsedBlocks(data');
  }
}
