/** The item decoder and encoder as they run (rasvn/marshal.go): byte by byte over a reader, and
    piece by piece into a writer. */
module WireCodec {
  import opened Common
  import opened Decimal
  import opened Bytes
  import opened Wire
  import Varint

  class Decoder {
    const reader: Varint.ByteReader

    constructor (reader: Varint.ByteReader)
      ensures this.reader == reader
    {
      this.reader := reader;
    }

    /** Decode: the next item, read to just behind its trailing whitespace. */
    method Decode() returns (r: Reply)
      requires reader.Valid()
      modifies reader
      ensures reader.Valid()
      ensures r == NextItem(reader.data, old(reader.position))
      ensures r.Parsed? ==> reader.position == r.next
    {
      var first := ReadNonWhitespace();
      if first == None {
        return EndOfStream;
      }
      r := DecodeItem(first.value, 0);
    }

    method ReadNonWhitespace() returns (r: Option<byte>)
      requires reader.Valid()
      modifies reader
      ensures reader.Valid()
      ensures var q := SkipWhitespace(reader.data, old(reader.position));
              if q < |reader.data| then r == Some(reader.data[q]) && reader.position == q + 1 else r == None
    {
      while true
        invariant reader.Valid()
        invariant SkipWhitespace(reader.data, old(reader.position)) == SkipWhitespace(reader.data, reader.position)
        decreases |reader.data| - reader.position
      {
        r := reader.ReadByte();
        if r == None || !IsWhitespace(r.value) {
          return;
        }
      }
    }

    method RequireWhitespace() returns (ok: bool)
      requires reader.Valid()
      modifies reader
      ensures reader.Valid()
      ensures ok == (old(reader.position) < |reader.data| && IsWhitespace(reader.data[old(reader.position)]))
      ensures ok ==> reader.position == old(reader.position) + 1
    {
      var value := reader.ReadByte();
      return value != None && IsWhitespace(value.value);
    }

    /** decode: the item whose first byte has just been read. */
    method DecodeItem(first: byte, depth: nat) returns (r: Reply)
      requires reader.Valid() && 0 < reader.position && reader.data[reader.position - 1] == first
      modifies reader
      ensures reader.Valid()
      ensures r == ItemAt(reader.data, old(reader.position) - 1, depth)
      ensures r.Parsed? ==> reader.position == r.next
      decreases |reader.data| - reader.position, 2
    {
      if depth >= MAX_NESTING_DEPTH {
        return Malformed;
      }
      if IsDigit(first) {
        r := DecodeNumberOrString(first);
      } else if IsAlpha(first) {
        r := DecodeWord(first);
      } else if first == OPEN {
        r := DecodeList(depth);
      } else {
        r := Malformed;
      }
    }

    method DecodeNumberOrString(first: byte) returns (r: Reply)
      requires reader.Valid() && 0 < reader.position && reader.data[reader.position - 1] == first && IsDigit(first)
      modifies reader
      ensures reader.Valid()
      ensures r == NumberOrStringAt(reader.data, old(reader.position) - 1,
                                    DigitsEnd(reader.data, old(reader.position) - 1))
      ensures r.Parsed? ==> reader.position == r.next
    {
      ghost var data, p := reader.data, reader.position - 1;
      var digits := [first];
      while true
        invariant reader.Valid() && p < reader.position && |digits| == reader.position - p <= MAX_DIGITS
        invariant digits == data[p..reader.position] && AllDigits(digits)
        invariant DigitsEnd(data, p) == DigitsEnd(data, reader.position)
        decreases |data| - reader.position
      {
        var read := reader.ReadByte();
        if read == None {
          return Malformed;
        }
        var value := read.value;
        if IsDigit(value) {
          if |digits| == MAX_DIGITS {
            return Malformed;
          }
          digits := digits + [value];
          continue;
        }
        var number := Value(digits, |digits|);
        if number >= TWO_TO_THE_64 {
          return Malformed;
        }
        if value == COLON {
          r := DecodeString(number);
          return;
        }
        if !IsWhitespace(value) {
          return Malformed;
        }
        return Parsed(Number(number), reader.position);
      }
    }

    /** The part of decodeNumberOrString behind the colon. */
    method DecodeString(number: uint64) returns (r: Reply)
      requires reader.Valid()
      modifies reader
      ensures reader.Valid()
      ensures r == StringAt(reader.data, old(reader.position), number)
      ensures r.Parsed? ==> reader.position == r.next
    {
      if number > MAX_STRING_LENGTH {
        return Malformed;
      }
      var data := reader.ReadFull(number);
      if data == None {
        return Malformed;
      }
      var ok := RequireWhitespace();
      if !ok {
        return Malformed;
      }
      return Parsed(Str(data.value), reader.position);
    }

    method DecodeWord(first: byte) returns (r: Reply)
      requires reader.Valid() && 0 < reader.position && reader.data[reader.position - 1] == first && IsAlpha(first)
      modifies reader
      ensures reader.Valid()
      ensures r == WordAt(reader.data, old(reader.position) - 1, WordEnd(reader.data, old(reader.position) - 1))
      ensures r.Parsed? ==> reader.position == r.next
    {
      ghost var data, p := reader.data, reader.position - 1;
      var word := [first];
      while true
        invariant reader.Valid() && p < reader.position && |word| == reader.position - p <= MAX_WORD_LENGTH
        invariant word == data[p..reader.position]
        invariant WordEnd(data, p) == WordEnd(data, reader.position)
        decreases |data| - reader.position
      {
        var read := reader.ReadByte();
        if read == None {
          return Malformed;
        }
        var value := read.value;
        if IsWordByte(value) {
          if |word| == MAX_WORD_LENGTH {
            return Malformed;
          }
          word := word + [value];
          continue;
        }
        if !IsWhitespace(value) {
          return Malformed;
        }
        return Parsed(Word(word), reader.position);
      }
    }

    method DecodeList(depth: nat) returns (r: Reply)
      requires reader.Valid()
      modifies reader
      ensures reader.Valid()
      ensures r == ItemsAt(reader.data, old(reader.position), depth, [])
      ensures r.Parsed? ==> reader.position == r.next
      decreases |reader.data| - reader.position, 1
    {
      var values: seq<Item> := [];
      while true
        invariant reader.Valid() && old(reader.position) <= reader.position
        invariant ItemsAt(reader.data, old(reader.position), depth, []) ==
                  ItemsAt(reader.data, reader.position, depth, values)
        decreases |reader.data| - reader.position
      {
        var first := ReadNonWhitespace();
        if first == None {
          return Malformed;
        }
        if first.value == CLOSE {
          var ok := RequireWhitespace();
          if !ok {
            return Malformed;
          }
          return Parsed(List(values), reader.position);
        }
        var value := DecodeItem(first.value, depth + 1);
        if !value.Parsed? {
          return Malformed;
        }
        values := values + [value.item];
      }
    }
  }

  class Encoder {
    var output: Text

    constructor ()
      ensures output == []
    {
      output := [];
    }

    method Write(text: Text)
      modifies this
      ensures output == old(output) + text
    {
      output := output + text;
    }

    /** Encode: either the whole item is appended, or it is refused and at most a part of it has
        been written. */
    method Encode(item: Item) returns (ok: bool)
      modifies this
      ensures ok <==> Encodable(item, 0)
      ensures ok ==> output == old(output) + Encoded(item)
      ensures old(output) <= output
    {
      ok := EncodeItem(item, 0);
    }

    method EncodeItem(item: Item, depth: nat) returns (ok: bool)
      modifies this
      ensures ok <==> Encodable(item, depth)
      ensures ok ==> output == old(output) + Encoded(item)
      ensures old(output) <= output
      decreases item, 1
    {
      if depth >= MAX_NESTING_DEPTH {
        return false;
      }
      match item {
        case Number(n) =>
          Write(Format(n) + [SPACE]);
          ok := true;
        case Word(word) =>
          ok := ValidWord(word);
          if ok {
            Write(word + [SPACE]);
          }
        case Str(data) =>
          ok := EncodeString(data);
        case List(_) =>
          ok := EncodeList(item, depth);
      }
    }

    method EncodeString(data: Text) returns (ok: bool)
      modifies this
      ensures ok <==> |data| <= MAX_STRING_LENGTH
      ensures ok ==> output == old(output) + (Format(|data|) + [COLON] + data + [SPACE])
      ensures old(output) <= output
    {
      if |data| > MAX_STRING_LENGTH {
        return false;
      }
      Write(Format(|data|) + [COLON]);
      Write(data);
      Write([SPACE]);
      return true;
    }

    method EncodeList(list: Item, depth: nat) returns (ok: bool)
      requires list.List?
      modifies this
      ensures ok <==> forall i :: 0 <= i < |list.items| ==> Encodable(list.items[i], depth + 1)
      ensures ok ==>
                output == old(output) + ([OPEN, SPACE] + EncodedItems(list, |list.items|) + [CLOSE, SPACE])
      ensures old(output) <= output
      decreases list, 0
    {
      Write([OPEN, SPACE]);
      for n := 0 to |list.items|
        invariant output == old(output) + ([OPEN, SPACE] + EncodedItems(list, n))
        invariant forall i :: 0 <= i < n ==> Encodable(list.items[i], depth + 1)
      {
        var done := EncodeItem(list.items[n], depth + 1);
        if !done {
          return false;
        }
      }
      Write([CLOSE, SPACE]);
      return true;
    }
  }
}
