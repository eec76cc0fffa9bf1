/**
  The decoders inside `Query` (mariadb/connection.go): the column
  definition packet and the integer cells of a text-protocol row. Each
  reading is a function over the packet bytes and a cursor; the methods
  walk a Packet's cursor the way the Go code does and are proved to follow
  those readings. The column types come from mariadb/types.go.
*/
module Decoders {
  import opened Bytes
  import opened Wire
  import opened Capabilities
  import opened Packets

  const MYSQL_TYPE_TINY: byte := 1
  const MYSQL_TYPE_SHORT: byte := 2
  const MYSQL_TYPE_LONG: byte := 3

  /** The column record `Query` builds; the name is the column alias. */
  datatype TableColumn = TableColumn(
    name: seq<byte>,
    fixedFields: nat,
    charset: nat,
    maxSize: nat,
    kind: byte,
    flag: nat,
    decimals: byte,
    unused: nat)

  /** One entry of the extended type block: a type byte and its text. */
  datatype ExtendedType = ExtendedType(kind: byte, value: seq<byte>)

  /** A column definition packet as read: the column and the extended types before its fixed fields. */
  datatype ColumnDefinition = ColumnDefinition(column: TableColumn, extendedTypes: seq<ExtendedType>)

  // ---------------------------------------------------------------------
  // Column definitions

  /**
    Six strings with a one-byte length each (catalog, schema, table alias,
    table, column alias, column): the fifth is the column's name.
  */
  function ColumnNamesAt(d: Dialect, s: seq<byte>, p: int): Option<(seq<byte>, int)>
  {
    var catalog :- TakeLenBytes(d, s, p);
    var schema :- TakeLenBytes(d, s, catalog.1);
    var tableAlias :- TakeLenBytes(d, s, schema.1);
    var table :- TakeLenBytes(d, s, tableAlias.1);
    var columnAlias :- TakeLenBytes(d, s, table.1);
    var column :- TakeLenBytes(d, s, columnAlias.1);
    Some((columnAlias.0, column.1))
  }

  /** The first n entries of an extended type block: a type byte and a string each. */
  function ExtendedTypesAt(d: Dialect, s: seq<byte>, p: int, n: nat): Option<(seq<ExtendedType>, int)>
  {
    if n == 0 then Some(([], p))
    else
      var prev :- ExtendedTypesAt(d, s, p, n - 1);
      var kind :- TakeU8(s, prev.1);
      var value :- TakeLenBytes(d, s, kind.1);
      Some((prev.0 + [ExtendedType(kind.0, value.0)], value.1))
  }

  /** The extended type block: a length-encoded count, then that many entries. */
  function ExtendedBlockAt(d: Dialect, s: seq<byte>, p: int): Option<(seq<ExtendedType>, int)>
  {
    var count :- TakeLenEncInt(s, p);
    ExtendedTypesAt(d, s, count.1, count.0)
  }

  /**
    The fixed fields: a length-encoded count of them, the charset (2
    bytes), the maximum size (4), the type (1), the flags (2), the decimals
    (1) and the reserved field (2).
  */
  function ColumnFieldsAt(s: seq<byte>, p: int, name: seq<byte>): Option<(TableColumn, int)>
  {
    var fixedFields :- TakeLenEncInt(s, p);
    var charset :- TakeLE(s, fixedFields.1, 2);
    var maxSize :- TakeLE(s, charset.1, 4);
    var kind :- TakeU8(s, maxSize.1);
    var flag :- TakeLE(s, kind.1, 2);
    var decimals :- TakeU8(s, flag.1);
    var unused :- TakeLE(s, decimals.1, 2);
    Some((TableColumn(name, fixedFields.0, charset.0, maxSize.0, kind.0, flag.0, decimals.0, unused.0), unused.1))
  }

  /**
    A column definition packet's body: the names, the extended type block
    when the client asked for extended type information, the fixed fields.
  */
  function ColumnAt(d: Dialect, s: seq<byte>, p: int, extended: bool): (r: Option<(ColumnDefinition, int)>)
  {
    var name :- ColumnNamesAt(d, s, p);
    var types :- if extended then ExtendedBlockAt(d, s, name.1) else Some(([], name.1));
    var column :- ColumnFieldsAt(s, types.1, name.0);
    Some((ColumnDefinition(column.0, types.0), column.1))
  }

  /** The loop reading the extended type block fails only where a shorter block already fails. */
  lemma {:induction false} ExtendedTypesPrefix(d: Dialect, s: seq<byte>, p: int, n: nat, k: nat)
    requires k <= n && ExtendedTypesAt(d, s, p, n).Some?
    ensures ExtendedTypesAt(d, s, p, k).Some?
    ensures |ExtendedTypesAt(d, s, p, k).value.0| == k
    decreases n
  {
    if k < n {
      ExtendedTypesPrefix(d, s, p, n - 1, k);
    } else if n > 0 {
      ExtendedTypesPrefix(d, s, p, n - 1, n - 1);
    }
  }

  // The layout a server gives a column definition without extended types.

  /** A string with a one-byte length before it. */
  function LenStr(x: seq<byte>): (r: seq<byte>)
    requires |x| < 0xfb
    ensures |r| == 1 + |x|
  {
    [|x|] + x
  }

  /** Field values that fit the widths the fixed fields give them. */
  predicate FieldsFit(c: TableColumn)
  {
    c.fixedFields < 0xfb && c.charset < 0x1_0000 && c.maxSize < 0x1_0000_0000 && c.flag < 0x1_0000 && c.unused < 0x1_0000
  }

  /** The fixed fields of a column, laid out in their order and widths. */
  function FieldsBytes(c: TableColumn): (r: seq<byte>)
    requires FieldsFit(c)
    ensures |r| == 13
  {
    [c.fixedFields] + LE(c.charset, 2) + LE(c.maxSize, 4) + [c.kind] + LE(c.flag, 2) + [c.decimals] + LE(c.unused, 2)
  }

  /** The six names of a column definition, each with its one-byte length. */
  function NamesBytes(catalog: seq<byte>, schema: seq<byte>, tableAlias: seq<byte>, table: seq<byte>, columnAlias: seq<byte>, column: seq<byte>): seq<byte>
    requires |catalog| < 0xfb && |schema| < 0xfb && |tableAlias| < 0xfb && |table| < 0xfb && |columnAlias| < 0xfb && |column| < 0xfb
  {
    LenStr(catalog) + LenStr(schema) + LenStr(tableAlias) + LenStr(table) + LenStr(columnAlias) + LenStr(column)
  }

  /** A string with a one-byte length is read back whole when a byte follows it. */
  lemma LenStrRead(d: Dialect, s: seq<byte>, p: int, x: seq<byte>)
    requires |x| < 0xfb && At(s, p, LenStr(x)) && p + 1 + |x| < |s|
    ensures Reads(TakeLenBytes(d, s, p), x, p + 1 + |x|)
  {
    AtSplit(s, p, [|x|], x);
    TakeU8At(s, p, |x|);
    TakeBytesAt(d, s, p + 1, x);
  }

  /** The six names are read back, the fifth kept, when a byte follows them. */
  lemma NamesRead(d: Dialect, s: seq<byte>, p: int,
                  catalog: seq<byte>, schema: seq<byte>, tableAlias: seq<byte>, table: seq<byte>, columnAlias: seq<byte>, column: seq<byte>)
    requires |catalog| < 0xfb && |schema| < 0xfb && |tableAlias| < 0xfb && |table| < 0xfb && |columnAlias| < 0xfb && |column| < 0xfb
    requires At(s, p, NamesBytes(catalog, schema, tableAlias, table, columnAlias, column))
    requires p + |NamesBytes(catalog, schema, tableAlias, table, columnAlias, column)| < |s|
    ensures Reads(ColumnNamesAt(d, s, p), columnAlias, p + |NamesBytes(catalog, schema, tableAlias, table, columnAlias, column)|)
  {
    var a := LenStr(catalog);
    var b := LenStr(schema);
    var c := LenStr(tableAlias);
    var e := LenStr(table);
    var f := LenStr(columnAlias);
    var g := LenStr(column);
    var p1 := p + |a|;
    var p2 := p1 + |b|;
    var p3 := p2 + |c|;
    var p4 := p3 + |e|;
    var p5 := p4 + |f|;
    assert At(s, p, a + b + c + e + f) && At(s, p5, g) by { AtSplit(s, p, a + b + c + e + f, g); }
    assert At(s, p, a + b + c + e) && At(s, p4, f) by { AtSplit(s, p, a + b + c + e, f); }
    assert At(s, p, a + b + c) && At(s, p3, e) by { AtSplit(s, p, a + b + c, e); }
    assert At(s, p, a + b) && At(s, p2, c) by { AtSplit(s, p, a + b, c); }
    assert At(s, p, a) && At(s, p1, b) by { AtSplit(s, p, a, b); }
    assert Reads(TakeLenBytes(d, s, p), catalog, p1) by { LenStrRead(d, s, p, catalog); }
    assert Reads(TakeLenBytes(d, s, p1), schema, p2) by { LenStrRead(d, s, p1, schema); }
    assert Reads(TakeLenBytes(d, s, p2), tableAlias, p3) by { LenStrRead(d, s, p2, tableAlias); }
    assert Reads(TakeLenBytes(d, s, p3), table, p4) by { LenStrRead(d, s, p3, table); }
    assert Reads(TakeLenBytes(d, s, p4), columnAlias, p5) by { LenStrRead(d, s, p4, columnAlias); }
    assert Reads(TakeLenBytes(d, s, p5), column, p5 + |g|) by { LenStrRead(d, s, p5, column); }
  }

  /** The fixed fields are read back where they were laid out. */
  lemma FieldsRead(s: seq<byte>, p: int, c: TableColumn)
    requires FieldsFit(c) && At(s, p, FieldsBytes(c))
    ensures Reads(ColumnFieldsAt(s, p, c.name), c, p + 13)
  {
    var a := [c.fixedFields];
    var b := LE(c.charset, 2);
    var e := LE(c.maxSize, 4);
    var f: seq<byte> := [c.kind];
    var g := LE(c.flag, 2);
    var h: seq<byte> := [c.decimals];
    var k := LE(c.unused, 2);
    assert At(s, p, a + b + e + f + g + h) && At(s, p + 11, k) by { AtSplit(s, p, a + b + e + f + g + h, k); }
    assert At(s, p, a + b + e + f + g) && At(s, p + 10, h) by { AtSplit(s, p, a + b + e + f + g, h); }
    assert At(s, p, a + b + e + f) && At(s, p + 8, g) by { AtSplit(s, p, a + b + e + f, g); }
    assert At(s, p, a + b + e) && At(s, p + 7, f) by { AtSplit(s, p, a + b + e, f); }
    assert At(s, p, a + b) && At(s, p + 3, e) by { AtSplit(s, p, a + b, e); }
    assert At(s, p, a) && At(s, p + 1, b) by { AtSplit(s, p, a, b); }
    assert Reads(TakeLenEncInt(s, p), c.fixedFields, p + 1) by { TakeU8At(s, p, c.fixedFields); }
    assert Reads(TakeLE(s, p + 1, 2), c.charset, p + 3) by { TakeLEAt(s, p + 1, c.charset, 2); }
    assert Reads(TakeLE(s, p + 3, 4), c.maxSize, p + 7) by { TakeLEAt(s, p + 3, c.maxSize, 4); }
    assert Reads(TakeU8(s, p + 7), c.kind, p + 8) by { TakeU8At(s, p + 7, c.kind); }
    assert Reads(TakeLE(s, p + 8, 2), c.flag, p + 10) by { TakeLEAt(s, p + 8, c.flag, 2); }
    assert Reads(TakeU8(s, p + 10), c.decimals, p + 11) by { TakeU8At(s, p + 10, c.decimals); }
    assert Reads(TakeLE(s, p + 11, 2), c.unused, p + 13) by { TakeLEAt(s, p + 11, c.unused, 2); }
  }

  /**
    A column definition laid out by the server, without an extended type
    block, is read back whole: the alias as the name, every fixed field
    with its value, and the cursor at its end.
  */
  lemma ColumnRoundTrip(d: Dialect, s: seq<byte>, p: int,
                        catalog: seq<byte>, schema: seq<byte>, tableAlias: seq<byte>, table: seq<byte>, column: seq<byte>,
                        c: TableColumn)
    requires |catalog| < 0xfb && |schema| < 0xfb && |tableAlias| < 0xfb && |table| < 0xfb && |c.name| < 0xfb && |column| < 0xfb
    requires FieldsFit(c)
    requires At(s, p, NamesBytes(catalog, schema, tableAlias, table, c.name, column) + FieldsBytes(c))
    ensures Reads(ColumnAt(d, s, p, false), ColumnDefinition(c, []),
                  p + |NamesBytes(catalog, schema, tableAlias, table, c.name, column)| + 13)
  {
    var names := NamesBytes(catalog, schema, tableAlias, table, c.name, column);
    AtSplit(s, p, names, FieldsBytes(c));
    NamesRead(d, s, p, catalog, schema, tableAlias, table, c.name, column);
    FieldsRead(s, p + |names|, c);
  }

  /**
    `Query`'s decoder of a column definition packet: it skips the header,
    reads the six names, reads the extended type block only when
    `extended` (the client's mask has MARIADB_CLIENT_EXTENDED_TYPE_INFO),
    then the fixed fields. The block's loop reuses the column loop's counter, which the
    decoder hands back: the count read when the block is there, the counter
    given otherwise.
  */
  method DecodeColumn(packet: Packet, extended: bool, i: int) returns (column: TableColumn, next: int)
    requires packet.pos >= 0
    requires ColumnAt(packet.dialect, packet.payload, packet.pos + 4, extended).Some?
    modifies packet`pos
    ensures var r := ColumnAt(packet.dialect, packet.payload, old(packet.pos) + 4, extended).value;
            && column == r.0.column && packet.pos == r.1
            && next == if extended then |r.0.extendedTypes| else i
  {
    packet.Skip(4);
    var name := DecodeNames(packet);
    next := i;
    ghost var types: seq<ExtendedType> := [];
    if extended {
      next, types := DecodeExtendedTypes(packet);
    }
    column := DecodeFields(packet, name);
  }

  /** The six names, the fifth returned. */
  method DecodeNames(packet: Packet) returns (name: seq<byte>)
    requires packet.pos >= 0 && ColumnNamesAt(packet.dialect, packet.payload, packet.pos).Some?
    modifies packet`pos
    ensures Reads(ColumnNamesAt(packet.dialect, packet.payload, old(packet.pos)), name, packet.pos)
  {
    var catalog := packet.ReadBytesEncodedLength();
    var schema := packet.ReadBytesEncodedLength();
    var tableAlias := packet.ReadBytesEncodedLength();
    var table := packet.ReadBytesEncodedLength();
    name := packet.ReadBytesEncodedLength();
    var column := packet.ReadBytesEncodedLength();
  }

  /** The extended type block: the count read, and the entries the loop walks over. */
  method DecodeExtendedTypes(packet: Packet) returns (count: nat, ghost types: seq<ExtendedType>)
    requires packet.pos >= 0 && ExtendedBlockAt(packet.dialect, packet.payload, packet.pos).Some?
    modifies packet`pos
    ensures Reads(ExtendedBlockAt(packet.dialect, packet.payload, old(packet.pos)), types, packet.pos)
    ensures count == TakeLenEncInt(packet.payload, old(packet.pos)).value.0 && |types| == count
  {
    ghost var s := packet.payload;
    ghost var d := packet.dialect;
    count := packet.ReadUIntEncodedLength();
    ghost var start := packet.pos;
    ExtendedTypesPrefix(d, s, start, count, count);
    types := [];
    var i := 0;
    while i < count
      invariant 0 <= i <= count && packet.pos >= 0
      invariant Reads(ExtendedTypesAt(d, s, start, i), types, packet.pos)
    {
      ExtendedTypesPrefix(d, s, start, count, i + 1);
      var t := packet.ReadUInt8();
      var v := packet.ReadBytesEncodedLength();
      types := types + [ExtendedType(t, v)];
      i := i + 1;
    }
  }

  /** The fixed fields, into the column record. */
  method DecodeFields(packet: Packet, name: seq<byte>) returns (column: TableColumn)
    requires packet.pos >= 0 && ColumnFieldsAt(packet.payload, packet.pos, name).Some?
    modifies packet`pos
    ensures Reads(ColumnFieldsAt(packet.payload, old(packet.pos), name), column, packet.pos)
  {
    var fixedFields := packet.ReadUIntEncodedLength();
    var charset := packet.ReadUInt16();
    var maxColSize := packet.ReadUInt32();
    var fieldType := packet.ReadUInt8();
    var fieldDetailFlag := packet.ReadUInt16();
    var decimals := packet.ReadUInt8();
    var unused := packet.ReadUInt16();
    column := TableColumn(name, fixedFields, charset, maxColSize, fieldType, fieldDetailFlag, decimals, unused);
  }

  // ---------------------------------------------------------------------
  // Rows

  /** The column types whose cells the decoder reads: TINY, SHORT and LONG. */
  predicate IsIntegerKind(kind: byte)
  {
    kind == MYSQL_TYPE_TINY || kind == MYSQL_TYPE_SHORT || kind == MYSQL_TYPE_LONG
  }

  /**
    One cell as the decoder reads it. For an integer column it reads the
    length-encoded string, steps the cursor back over the string's bytes
    (leaving it just past the length byte), reads a length-encoded integer
    there and subtracts 48, the code of '0'; a negative result is lowered
    by one more. Any other column yields no value and leaves the cursor.
  */
  function CellAt(d: Dialect, s: seq<byte>, p: int, kind: byte): (r: Option<(Option<int>, int)>)
    ensures !IsIntegerKind(kind) ==> r == Some((None, p))
  {
    if IsIntegerKind(kind) then
      var text :- TakeLenBytes(d, s, p);
      var n :- TakeLenEncInt(s, text.1 - |text.0|);
      var v := n.0 - 48;
      Some((Some(if v < 0 then v - 1 else v), n.1))
    else Some((None, p))
  }

  /**
    A row as the decoder reads it: the cells in column order, each stored
    under its column's name (a later column of the same name overwrites).
  */
  function RowAt(d: Dialect, s: seq<byte>, p: int, columns: seq<TableColumn>): (r: Option<(map<seq<byte>, Option<int>>, int)>)
  {
    if columns == [] then Some((map[], p))
    else
      var prev :- RowAt(d, s, p, columns[..|columns| - 1]);
      var c := columns[|columns| - 1];
      var cell :- CellAt(d, s, prev.1, c.kind);
      Some((prev.0[c.name := cell.0], cell.1))
  }

  /**
    An integer cell moves the cursor on and yields a value: a digit's code
    less 48 read as a length-encoded integer (below 65536), or one less
    than that when negative, so never -1.
  */
  lemma IntegerCellRange(d: Dialect, s: seq<byte>, p: int, kind: byte)
    requires IsIntegerKind(kind) && CellAt(d, s, p, kind).Some?
    ensures var (v, q) := CellAt(d, s, p, kind).value;
            && v.Some? && -49 <= v.value < 0x1_0000 - 48 && v.value != -1
            && q > p
  {
  }

  /** A row read holds a cell under the name of every column. */
  lemma {:induction false} RowHasEveryColumn(d: Dialect, s: seq<byte>, p: int, columns: seq<TableColumn>)
    requires RowAt(d, s, p, columns).Some?
    ensures forall i :: 0 <= i < |columns| ==> columns[i].name in RowAt(d, s, p, columns).value.0
    decreases |columns|
  {
    if columns != [] {
      var init := columns[..|columns| - 1];
      RowHasEveryColumn(d, s, p, init);
      assert forall i :: 0 <= i < |init| ==> init[i] == columns[i];
    }
  }

  /**
    A column definition takes its name from the fifth of the six names
    (the alias); without the extended type block it has no type entries.
  */
  lemma ColumnAtName(d: Dialect, s: seq<byte>, p: int, extended: bool)
    requires ColumnAt(d, s, p, extended).Some?
    ensures ColumnNamesAt(d, s, p).Some? && ColumnAt(d, s, p, extended).value.0.column.name == ColumnNamesAt(d, s, p).value.0
    ensures !extended ==> ColumnAt(d, s, p, extended).value.0.extendedTypes == []
  {
    var names := ColumnNamesAt(d, s, p).value;
    var types := if extended then ExtendedBlockAt(d, s, names.1).value else ([], names.1);
    FieldsKeepName(s, types.1, names.0);
  }

  /** The fixed fields are stored under the name read before them. */
  lemma FieldsKeepName(s: seq<byte>, p: int, name: seq<byte>)
    ensures ColumnFieldsAt(s, p, name).Some? ==> ColumnFieldsAt(s, p, name).value.0.name == name
  {
  }

  /** A row readable over some columns is readable over every prefix of them. */
  lemma {:induction false} RowPrefix(d: Dialect, s: seq<byte>, p: int, columns: seq<TableColumn>, k: nat)
    requires k <= |columns| && RowAt(d, s, p, columns).Some?
    ensures RowAt(d, s, p, columns[..k]).Some?
    decreases |columns|
  {
    if k < |columns| {
      assert columns[..|columns| - 1][..k] == columns[..k];
      RowPrefix(d, s, p, columns[..|columns| - 1], k);
    } else {
      assert columns[..k] == columns;
    }
  }

  /** The cursor never moves back over a row: each cell ends at or after where it starts. */
  lemma {:induction false} RowAdvances(d: Dialect, s: seq<byte>, p: int, columns: seq<TableColumn>)
    requires RowAt(d, s, p, columns).Some?
    ensures RowAt(d, s, p, columns).value.1 >= p
    decreases |columns|
  {
    if columns != [] {
      RowAdvances(d, s, p, columns[..|columns| - 1]);
    }
  }

  /**
    The cell the server sends for a non-negative integer v (its decimal
    digits with a one-byte length) reads back as its leading digit, with
    the cursor two bytes on: v itself when it is a single digit; for v of
    two or more digits, a smaller value, and the cursor stops inside the
    cell.
  */
  lemma DecimalCell(d: Dialect, s: seq<byte>, p: int, kind: byte, v: nat)
    requires IsIntegerKind(kind) && |Decimal(v)| < 0xfb
    requires At(s, p, LenStr(Decimal(v))) && p + 1 + |Decimal(v)| < |s|
    ensures Reads(CellAt(d, s, p, kind), Some(Decimal(v)[0] - 48), p + 2)
    ensures v < 10 ==> Decimal(v)[0] - 48 == v
    ensures v >= 10 ==> Decimal(v)[0] - 48 < v && p + 2 < p + 1 + |Decimal(v)|
  {
    var t := Decimal(v);
    LenStrRead(d, s, p, t);
    AtSplit(s, p, [|t|], t);
    AtSlice(s, p + 1, t);
    assert s[p + 1] == t[0];
    assert Reads(TakeLenEncInt(s, p + 1), t[0], p + 2);
    if v >= 10 {
      assert |t| >= 2 by { assert t == Decimal(v / 10) + [48 + v % 10]; }
    }
  }

  /**
    A negative number's cell starts with '-' (45): it reads back as
    45 - 48 - 1 = -4, whatever its digits.
  */
  lemma NegativeCell(d: Dialect, s: seq<byte>, p: int, kind: byte, digits: seq<byte>)
    requires IsIntegerKind(kind) && |digits| + 1 < 0xfb
    requires At(s, p, LenStr(['-' as int] + digits)) && p + 2 + |digits| < |s|
    ensures Reads(CellAt(d, s, p, kind), Some(-4), p + 2)
  {
    var t: seq<byte> := ['-' as int] + digits;
    LenStrRead(d, s, p, t);
    AtSplit(s, p, [|t|], t);
    AtSlice(s, p + 1, t);
    assert s[p + 1] == 45;
  }

  /** The single-digit values of a run of integer columns, stored under their names in column order. */
  function DigitRow(columns: seq<TableColumn>, digits: seq<nat>): map<seq<byte>, Option<int>>
    requires |digits| == |columns|
  {
    if columns == [] then map[]
    else
      var n := |columns| - 1;
      DigitRow(columns[..n], digits[..n])[columns[n].name := Some(digits[n])]
  }

  /** The cells of single digits, each with its one-byte length. */
  function DigitCells(digits: seq<nat>): (r: seq<byte>)
    requires forall i :: 0 <= i < |digits| ==> digits[i] < 10
    ensures |r| == 2 * |digits|
  {
    if digits == [] then []
    else DigitCells(digits[..|digits| - 1]) + [1, 48 + digits[|digits| - 1]]
  }

  /** Reading a row one column further: the row so far, then that column's cell. */
  lemma RowStep(d: Dialect, s: seq<byte>, p: int, columns: seq<TableColumn>, c: TableColumn,
                m: map<seq<byte>, Option<int>>, q: int, v: Option<int>, q': int)
    requires Reads(RowAt(d, s, p, columns), m, q) && Reads(CellAt(d, s, q, c.kind), v, q')
    ensures Reads(RowAt(d, s, p, columns + [c]), m[c.name := v], q')
  {
    assert (columns + [c])[..|columns|] == columns;
  }

  /** A one-digit cell of an integer column reads back as its digit. */
  lemma DigitCellRead(d: Dialect, s: seq<byte>, q: int, kind: byte, k: nat)
    requires IsIntegerKind(kind) && k < 10 && At(s, q, [1, 48 + k]) && q + 2 < |s|
    ensures Reads(CellAt(d, s, q, kind), Some(k), q + 2)
  {
    assert LenStr(Decimal(k)) == [1, 48 + k];
    DecimalCell(d, s, q, kind, k);
  }

  /**
    A row of single-digit integer cells, as the server sends it, is read
    back as the map from each column name to its digit.
  */
  lemma {:induction false} DigitRowRoundTrip(d: Dialect, s: seq<byte>, p: int, columns: seq<TableColumn>, digits: seq<nat>)
    requires |digits| == |columns| && forall i :: 0 <= i < |digits| ==> digits[i] < 10
    requires forall i :: 0 <= i < |columns| ==> IsIntegerKind(columns[i].kind)
    requires At(s, p, DigitCells(digits)) && p + 2 * |digits| < |s|
    ensures Reads(RowAt(d, s, p, columns), DigitRow(columns, digits), p + 2 * |digits|)
    decreases |columns|
  {
    if columns != [] {
      var n := |columns| - 1;
      DigitCellsSplit(s, p, digits);
      assert forall i :: 0 <= i < n ==> digits[..n][i] == digits[i] && columns[..n][i] == columns[i];
      DigitRowRoundTrip(d, s, p, columns[..n], digits[..n]);
      DigitRowStep(d, s, p, columns, digits);
    }
  }

  /** The cells of all digits but the last, then the last one's cell. */
  lemma DigitCellsSplit(s: seq<byte>, p: int, digits: seq<nat>)
    requires |digits| > 0 && forall i :: 0 <= i < |digits| ==> digits[i] < 10
    requires At(s, p, DigitCells(digits))
    ensures var n := |digits| - 1;
            At(s, p, DigitCells(digits[..n])) && At(s, p + 2 * n, [1, 48 + digits[n]])
  {
    var n := |digits| - 1;
    assert DigitCells(digits) == DigitCells(digits[..n]) + [1, 48 + digits[n]];
    AtSplit(s, p, DigitCells(digits[..n]), [1, 48 + digits[n]]);
  }

  /** The last digit cell read after the row of the ones before it. */
  lemma DigitRowStep(d: Dialect, s: seq<byte>, p: int, columns: seq<TableColumn>, digits: seq<nat>)
    requires |digits| == |columns| > 0
    requires digits[|digits| - 1] < 10 && IsIntegerKind(columns[|columns| - 1].kind)
    requires var n := |columns| - 1;
             Reads(RowAt(d, s, p, columns[..n]), DigitRow(columns[..n], digits[..n]), p + 2 * n)
    requires var n := |columns| - 1;
             At(s, p + 2 * n, [1, 48 + digits[n]]) && p + 2 * n + 2 < |s|
    ensures Reads(RowAt(d, s, p, columns), DigitRow(columns, digits), p + 2 * |digits|)
  {
    var n := |columns| - 1;
    var q := p + 2 * n;
    DigitCellRead(d, s, q, columns[n].kind, digits[n]);
    RowStep(d, s, p, columns[..n], columns[n], DigitRow(columns[..n], digits[..n]), q, Some(digits[n]), q + 2);
    assert columns[..n] + [columns[n]] == columns;
  }

  /** With distinct names, each column's name maps to its own digit. */
  lemma {:induction false} DigitRowLookup(columns: seq<TableColumn>, digits: seq<nat>, i: nat)
    requires |digits| == |columns| && i < |columns|
    requires forall j, k :: 0 <= j < k < |columns| ==> columns[j].name != columns[k].name
    ensures columns[i].name in DigitRow(columns, digits) && DigitRow(columns, digits)[columns[i].name] == Some(digits[i])
    decreases |columns|
  {
    var n := |columns| - 1;
    if i < n {
      DigitRowLookup(columns[..n], digits[..n], i);
    }
  }

  /** A ResultRow: the map `Query` fills cell by cell. */
  class ResultRow {
    var cells: map<seq<byte>, Option<int>>

    constructor ()
      ensures cells == map[]
    {
      cells := map[];
    }
  }

  /**
    n times the same value: `Query` appends its row once per column, so the
    result holds n references to one row, and n copies of its map.
  */
  function Repeat<T>(x: T, n: nat): (r: seq<T>)
    ensures |r| == n && forall i :: 0 <= i < n ==> r[i] == x
  {
    seq(n, _ => x)
  }

  /** One cell, read where the cursor is. */
  method DecodeCell(packet: Packet, kind: byte) returns (value: Option<int>)
    requires packet.pos >= 0 && CellAt(packet.dialect, packet.payload, packet.pos, kind).Some?
    modifies packet`pos
    ensures Reads(CellAt(packet.dialect, packet.payload, old(packet.pos), kind), value, packet.pos)
  {
    value := None;
    if kind == MYSQL_TYPE_TINY || kind == MYSQL_TYPE_SHORT || kind == MYSQL_TYPE_LONG {
      var bvalue := packet.ReadBytesEncodedLength();
      packet.Skip(-|bvalue|);
      var n := packet.ReadUIntEncodedLength();
      var v := n as int - 48;
      if v < 0 {
        v := v - 1;
      }
      value := Some(v);
    }
  }

  /**
    `Query`'s decoder of a row packet: it skips the header, creates one
    row and, for each column in turn, stores the cell under the column's
    name and appends the row to the result again. The result thus holds
    the same row once per column, and the row holds every cell.
  */
  method DecodeRow(packet: Packet, columns: seq<TableColumn>, rows: seq<ResultRow>) returns (row: ResultRow, result: seq<ResultRow>)
    requires packet.pos >= 0 && RowAt(packet.dialect, packet.payload, packet.pos + 4, columns).Some?
    modifies packet`pos
    ensures fresh(row)
    ensures Reads(RowAt(packet.dialect, packet.payload, old(packet.pos) + 4, columns), row.cells, packet.pos)
    ensures result == rows + Repeat(row, |columns|)
  {
    ghost var d := packet.dialect;
    ghost var s := packet.payload;
    packet.Skip(4);
    ghost var start := packet.pos;
    row := new ResultRow();
    result := rows;
    var i := 0;
    while i < |columns|
      invariant 0 <= i <= |columns| && packet.pos >= 0
      invariant Reads(RowAt(d, s, start, columns[..i]), row.cells, packet.pos)
      invariant result == rows + Repeat(row, i)
    {
      RowPrefix(d, s, start, columns, i + 1);
      assert columns[..i + 1][..i] == columns[..i];
      var column := columns[i];
      var value := DecodeCell(packet, column.kind);
      row.cells := row.cells[column.name := value];
      assert Repeat(row, i) + [row] == Repeat(row, i + 1);
      result := result + [row];
      i := i + 1;
    }
    assert columns[..i] == columns;
  }
}
