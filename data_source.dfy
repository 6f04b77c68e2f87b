/** The data-source contract both engines read through: a named resource
    holding a finite sequence of rows, with one read cursor, that is opened
    once, read row by row, rewound and closed. A source used as an output
    sink also records the rows written to it. How rows are decoded from or
    encoded to CSV or XML bytes is not part of this model. */
module DataSource {
  import opened Wrappers
  import opened Rows

  /** What `getType()` reports. The Query engine finishes a sink by it. */
  datatype Kind = FileKind | StreamKind | OtherKind

  class Source {
    /** The name used in error messages (`getSourceName()`). */
    const name: string
    const kind: Kind
    /** The rows the underlying file holds, in file order. */
    const rows: seq<Row>
    /** Whether a file pointer is held. */
    var isOpen: bool
    /** How many rows have been read since opening or the last rewind. */
    var cursor: nat
    /** The rows written since the sink was opened. */
    var written: seq<Row>

    ghost predicate Valid()
      reads this
    {
      cursor <= |rows|
    }

    constructor (name: string, kind: Kind, rows: seq<Row>)
      ensures this.name == name && this.kind == kind && this.rows == rows
      ensures !isOpen && cursor == 0 && written == [] && Valid()
    {
      this.name := name;
      this.kind := kind;
      this.rows := rows;
      isOpen := false;
      cursor := 0;
      written := [];
    }

    /** `open()`: takes a fresh file pointer positioned at the first row (a
        sink starts out empty); a source that already holds one throws
        instead and is left as it was. */
    method Open() returns (ok: bool)
      modifies this
      ensures ok == !old(isOpen)
      ensures ok ==> isOpen && cursor == 0 && written == []
      ensures !ok ==> isOpen && cursor == old(cursor) && written == old(written)
      ensures old(Valid()) ==> Valid()
    {
      ok := !isOpen;
      if ok {
        isOpen := true;
        cursor := 0;
        written := [];
      }
    }

    /** `getNextDataRow()`: the row under the cursor, or nothing once every
        row has been read (reading past the end is not an error). */
    method NextRow() returns (r: Option<Row>)
      requires isOpen && Valid()
      modifies this`cursor
      ensures Valid()
      ensures old(cursor) < |rows| ==> r == Some(rows[old(cursor)]) && cursor == old(cursor) + 1
      ensures old(cursor) == |rows| ==> r == None && cursor == old(cursor)
    {
      if cursor < |rows| {
        r := Some(rows[cursor]);
        cursor := cursor + 1;
      } else {
        r := None;
      }
    }

    /** `reset()`: rewinds to the first row without closing. */
    method Reset()
      requires isOpen
      modifies this`cursor
      ensures cursor == 0 && Valid()
    {
      cursor := 0;
    }

    /** `close()`: releases the file pointer. */
    method Close()
      requires isOpen
      modifies this`isOpen
      ensures !isOpen
    {
      isOpen := false;
    }

    /** `writeDataRow($row)`: appends one row to the sink. */
    method WriteRow(row: Row)
      requires isOpen
      modifies this`written
      ensures written == old(written) + [row]
    {
      written := written + [row];
    }
  }
}
