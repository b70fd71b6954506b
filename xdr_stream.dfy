/** The byte-stream collaborators of the type contract, seen only through the interface
    the contract uses: a writer that types append to and that is finalized into a buffer,
    and a reader whose cursor types advance and that checks nothing is left over.
    Their packing, alignment and byte-order rules are not part of this model. */
module XdrStream {
  import opened Wrappers

  /** The failures the contract layer can report. */
  datatype XdrError =
    | InvalidFormat(format: string)   // InvalidXdrEncodingFormatError: a tag other than raw, hex, base64
    | NotImplemented                  // XdrNotImplementedDefinitionError: an abstract read/write was called
    | NotAFunction                    // the TypeError of calling a read/write the type does not define
    | MalformedText                   // hex or base64 text the decoders refuse
    | InvalidSource                   // a reader built over something that is not a byte buffer
    | UnconsumedInput(trailing: nat)  // ensureInputConsumed found bytes after the value
    | DataError(reason: string)       // a type's own read or write refused the data

  /** What a type's read yields: the value and how many bytes it took. */
  datatype Readout<V> = Readout(value: V, consumed: nat)

  /** A type's read, given the reader's remaining bytes; it never takes more than it has. */
  type ReadFn<V> = f: seq<byte> -> Result<Readout<V>, XdrError>
    | forall s :: f(s).Success? ==> f(s).value.consumed <= |s|
    witness (s: seq<byte>) => Failure(NotImplemented)

  /** A type's write: the bytes it appends for a value, or the error it throws. */
  type WriteFn<!V> = V -> Result<seq<byte>, XdrError>

  class XdrWriter {
    var buffer: seq<byte>

    constructor ()
      ensures buffer == []
    {
      buffer := [];
    }

    /** Runs a type's write against this writer. */
    method Write<V>(write: WriteFn<V>, value: V) returns (o: Outcome<XdrError>)
      modifies this
      ensures write(value).Success? ==> o == Pass && buffer == old(buffer) + write(value).value
      ensures write(value).Failure? ==> o == Fail(write(value).error) && buffer == old(buffer)
    {
      match write(value)
      case Success(bytes) =>
        buffer := buffer + bytes;
        o := Pass;
      case Failure(e) =>
        o := Fail(e);
    }

    /** The accumulated buffer. */
    method Finalize() returns (b: seq<byte>)
      ensures b == buffer
    {
      b := buffer;
    }
  }

  class XdrReader {
    const source: seq<byte>
    var cursor: nat

    ghost predicate Valid()
      reads this
    {
      cursor <= |source|
    }

    constructor (source: seq<byte>)
      ensures this.source == source && cursor == 0 && Valid()
    {
      this.source := source;
      cursor := 0;
    }

    /** Runs a type's read from the cursor, advancing it by what the read took. */
    method Read<V>(read: ReadFn<V>) returns (r: Result<V, XdrError>)
      requires Valid()
      modifies this
      ensures Valid()
      ensures read(source[old(cursor)..]).Success? ==>
        r == Success(read(source[old(cursor)..]).value.value) &&
        cursor == old(cursor) + read(source[old(cursor)..]).value.consumed
      ensures read(source[old(cursor)..]).Failure? ==>
        r == Failure(read(source[old(cursor)..]).error) && cursor == old(cursor)
    {
      match read(source[cursor..])
      case Success(out) =>
        cursor := cursor + out.consumed;
        r := Success(out.value);
      case Failure(e) =>
        r := Failure(e);
    }

    /** Fails unless the cursor has reached the end of the source. */
    method EnsureInputConsumed() returns (o: Outcome<XdrError>)
      requires Valid()
      ensures o.Pass? <==> cursor == |source|
      ensures o.Fail? ==> o.error == UnconsumedInput(|source| - cursor) && cursor < |source|
    {
      if cursor < |source| {
        o := Fail(UnconsumedInput(|source| - cursor));
      } else {
        o := Pass;
      }
    }
  }
}
