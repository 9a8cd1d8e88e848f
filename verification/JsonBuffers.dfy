/** The memory behind the number texts of a JSON value: temporary buffers, and an array of pointers
    to them that grows (support/dpiJson.c). */
module JsonBuffers {
  import opened Common
  import opened Decimals
  import opened NumberPrinter
  import opened NumberText
  import opened OracleNumber

  const TEMP_BUFFER_SIZE := 1024
  const BUFFER_INCREMENT := 16

  /** The bytes that a number leaves in its buffer: the printer is given room for as many bytes as
      the longest number needs in a single-byte encoding. */
  function TextOf(e: Encoding, bytes: seq<int>): (r: Option<seq<nat>>)
    requires |bytes| == NUMBER_SIZE
    ensures r.Some? ==> |r.value| <= TEXT_CHARS
  {
    match Decode(bytes)
    case None => None
    case Some(d) => if ByteCount(e, |Text(d)|) <= TEXT_CHARS then Some(Bytes(e, Text(d))) else None
  }

  lemma SameBody(e: seq<int>, bytes: seq<int>)
    requires 0 < |e| <= |bytes| && bytes[..|e|] == e && e[0] == |e| - 1
    ensures bytes[0] == e[0] && bytes[1..1 + bytes[0]] == e[1..1 + e[0]]
  {
    assert bytes[0] == bytes[..|e|][0];
    assert bytes[1..|e|] == bytes[..|e|][1..];
  }

  lemma DecodeOfEncoded(d: Decimal, bytes: seq<int>)
    requires Normalised(d) && Fits(d)
    requires |bytes| == NUMBER_SIZE && |Encode(d)| <= NUMBER_SIZE && bytes[..|Encode(d)|] == Encode(d)
    ensures Decode(bytes) == Some(if d.digits == [] then Decimal(false, 1, [0]) else d)
  {
    DecodeEncode(d);
    EncodedSize(d);
    SameBody(Encode(d), bytes);
  }

  /** In a single-byte encoding there is room for every number that was encoded from digits. */
  lemma EncodedNumbersPrint(d: Decimal, bytes: seq<int>)
    requires Normalised(d) && Fits(d)
    requires |bytes| == 22 && |Encode(d)| <= 22 && bytes[..|Encode(d)|] == Encode(d)
    ensures TextOf(SingleByte, bytes) == Some(if d.digits == [] then [48] else Text(d))
  {
    DecodeOfEncoded(d, bytes);
    SingleBytes(if d.digits == [] then [NUL] else Text(d));
    if d.digits == [] {
      ZeroText();
    } else {
      TextFits(d);
    }
  }

  class TempBuffers {
    const encoding: Encoding

    var tempBuffers: array?<array?<nat>>
    var allocatedTempBuffers: nat
    var numTempBuffers: nat
    var tempBufferUsed: nat

    /** The texts so far; one per buffer, empty where the conversion failed. */
    ghost var texts: seq<seq<nat>>

    /** The pointer array is as large as its recorded size. */
    ghost predicate Consistent()
      reads this
    {
      if allocatedTempBuffers == 0 then tempBuffers == null
      else tempBuffers != null && tempBuffers.Length == allocatedTempBuffers
    }

    /** Buffer `i` exists and starts with text `i`. */
    ghost predicate Holds(i: nat)
      requires tempBuffers != null && i < tempBuffers.Length && i < |texts|
      reads this, tempBuffers, tempBuffers[i]
    {
      && tempBuffers[i] != null
      && tempBuffers[i].Length == TEMP_BUFFER_SIZE
      && |texts[i]| <= tempBuffers[i].Length
      && tempBuffers[i][..|texts[i]|] == texts[i]
    }

    ghost predicate Valid()
      reads this, tempBuffers, set i | 0 <= i < numTempBuffers && tempBuffers != null && i < tempBuffers.Length :: tempBuffers[i]
    {
      && Consistent()
      && tempBufferUsed == 0
      && numTempBuffers == |texts| <= allocatedTempBuffers
      && (forall i :: 0 <= i < numTempBuffers ==> Holds(i))
      && (forall i, j :: 0 <= i < j < numTempBuffers ==> tempBuffers[i] != tempBuffers[j])
    }

    constructor (encoding: Encoding)
      ensures Valid() && numTempBuffers == 0
    {
      this.encoding := encoding;
      tempBuffers, allocatedTempBuffers, numTempBuffers, tempBufferUsed := null, 0, 0, 0;
      texts := [];
    }

    /** Makes room for one more pointer. The recorded size grows before the memory is there. */
    method Reserve(hasMemory: bool) returns (status: Status)
      requires Valid()
      modifies this`tempBuffers, this`allocatedTempBuffers
      ensures status == Failure <==> numTempBuffers == old(allocatedTempBuffers) && !hasMemory
      ensures status == Success ==>
                Valid() && numTempBuffers < allocatedTempBuffers && (tempBuffers == old(tempBuffers) || fresh(tempBuffers))
      ensures status == Success ==> tempBuffers != null && forall i :: 0 <= i < numTempBuffers ==> tempBuffers[i] == old(tempBuffers[i])
      ensures status == Failure ==> !Consistent()
      ensures allocatedTempBuffers == old(allocatedTempBuffers) + if numTempBuffers == old(allocatedTempBuffers) then 16 else 0
    {
      if numTempBuffers == allocatedTempBuffers {
        allocatedTempBuffers := allocatedTempBuffers + BUFFER_INCREMENT;
        if !hasMemory {
          return Failure;
        }
        var larger := new array?<nat>[allocatedTempBuffers](_ => null);
        forall i | 0 <= i < numTempBuffers {
          larger[i] := tempBuffers[i];
        }
        tempBuffers := larger;
        forall i | 0 <= i < numTempBuffers
          ensures Holds(i)
        {
          assert old(Holds(i)) && larger[i] == old(tempBuffers[i]);
        }
      }
      status := Success;
    }

    /** Puts a new buffer behind the others. */
    method AddBuffer() returns (buffer: array<nat>)
      requires Valid() && tempBuffers != null && numTempBuffers < allocatedTempBuffers
      modifies this`numTempBuffers, this`tempBufferUsed, this`texts, tempBuffers
      ensures Valid() && fresh(buffer) && texts == old(texts) + [[]]
      ensures tempBuffers[numTempBuffers - 1] == buffer && buffer.Length == 1024
      ensures forall i :: 0 <= i < old(numTempBuffers) ==> tempBuffers[i] == old(tempBuffers[i])
    {
      buffer := new nat[TEMP_BUFFER_SIZE];
      ghost var before := tempBuffers[..];
      tempBuffers[numTempBuffers] := buffer;
      numTempBuffers, tempBufferUsed, texts := numTempBuffers + 1, 0, texts + [[]];
      forall i | 0 <= i < numTempBuffers
        ensures Holds(i)
      {
        if i < |texts| - 1 {
          assert old(Holds(i));
          assert before[i] == tempBuffers[i];
        }
      }
    }

    /** Prints a number into a buffer, by way of an array of forty digits, shown here with the twenty
        places behind it and what they held `before`. */
    method Print(buffer: array<nat>, oracleValue: array<int>)
      returns (status: Status, length: nat, digits: array<nat>, ghost before: seq<nat>)
      requires oracleValue.Length == NUMBER_SIZE && forall i :: 0 <= i < oracleValue.Length ==> IsByte(oracleValue[i])
      requires buffer.Length == TEMP_BUFFER_SIZE
      modifies buffer
      ensures fresh(digits) && |before| == digits.Length == DIGIT_SPACE
      ensures DigitsStored(old(oracleValue[..]), before, digits[..])
      ensures status == Success <==> TextOf(encoding, old(oracleValue[..])).Some?
      ensures status == Success ==>
                var text := TextOf(encoding, old(oracleValue[..])).value;
                length == |text| && |text| <= buffer.Length && buffer[..|text|] == text
    {
      digits := new nat[DIGIT_SPACE];
      before := digits[..];
      status, length := FromOracleNumberAsText(oracleValue, encoding, digits, buffer, TEXT_CHARS);
    }

    /** Prints a number into the newest buffer, which holds no text yet. */
    method Fill(buffer: array<nat>, oracleValue: array<int>)
      returns (status: Status, length: nat, digits: array<nat>, ghost before: seq<nat>)
      requires Valid() && numTempBuffers > 0 && tempBuffers[numTempBuffers - 1] == buffer && texts[numTempBuffers - 1] == []
      requires oracleValue.Length == 22 && forall i :: 0 <= i < oracleValue.Length ==> IsByte(oracleValue[i])
      modifies buffer, this`texts
      ensures Valid()
      ensures fresh(digits) && |before| == digits.Length == 60
      ensures DigitsStored(old(oracleValue[..]), before, digits[..])
      ensures var text := TextOf(encoding, old(oracleValue[..]));
              && (status == Success <==> text.Some?)
              && (status == Success ==> length == |text.value|)
              && texts == old(texts)[numTempBuffers - 1 := if status == Success then text.value else []]
    {
      ghost var bytes := oracleValue[..];
      assert Holds(numTempBuffers - 1);
      status, length, digits, before := Print(buffer, oracleValue);
      texts := texts[numTempBuffers - 1 := if status == Success then TextOf(encoding, bytes).value else []];
      forall i | 0 <= i < numTempBuffers
        ensures Holds(i)
      {
        assert old(Holds(i));
        assert i < numTempBuffers - 1 ==> tempBuffers[i] != buffer;
      }
    }

    /** Gives the number a buffer, and prints it there. */
    method AddText(oracleValue: array<int>)
      returns (status: Status, buffer: array<nat>, length: nat, digits: array<nat>, ghost before: seq<nat>)
      requires Valid() && tempBuffers != null && numTempBuffers < allocatedTempBuffers
      requires oracleValue.Length == NUMBER_SIZE && forall i :: 0 <= i < oracleValue.Length ==> IsByte(oracleValue[i])
      modifies this`numTempBuffers, this`tempBufferUsed, this`texts, tempBuffers
      ensures Valid() && fresh(buffer) && numTempBuffers == old(numTempBuffers) + 1 && tempBuffers[old(numTempBuffers)] == buffer
      ensures buffer.Length == 1024
      ensures var text := TextOf(encoding, old(oracleValue[..]));
              && (status == Success <==> text.Some?) && (status == Success ==> length == |text.value|)
              && texts == old(texts) + [if status == Success then text.value else []]
      ensures forall i :: 0 <= i < old(numTempBuffers) ==> tempBuffers[i] == old(tempBuffers[i])
      ensures fresh(digits) && |before| == digits.Length == DIGIT_SPACE
      ensures DigitsStored(old(oracleValue[..]), before, digits[..])
    {
      ghost var bytes, textsBefore := oracleValue[..], texts;
      buffer := AddBuffer();
      assert oracleValue[..] == bytes;
      status, length, digits, before := Fill(buffer, oracleValue);
      assert texts == textsBefore + [if status == Success then TextOf(encoding, bytes).value else []];
    }

    /** Turns a number into text. Every number gets a buffer of its own, so no earlier text changes,
        also when the pointer array grows. If there is no memory for the larger array, its recorded
        size is wrong from then on; that is the only case. The places behind the array of forty digits
        are left alone exactly if the digits of the number fit it. */
    method AddNumber(oracleValue: array<int>, arrayMemory: bool, bufferMemory: bool)
      returns (status: Status, buffer: array?<nat>, length: nat, digits: array<nat>, ghost before: seq<nat>)
      requires Valid()
      requires oracleValue.Length == 22 && forall i :: 0 <= i < oracleValue.Length ==> IsByte(oracleValue[i])
      modifies this, tempBuffers
      ensures Valid() <==> old(numTempBuffers) < old(allocatedTempBuffers) || arrayMemory
      ensures status == Success <==> Valid() && bufferMemory && TextOf(encoding, oracleValue[..]).Some?
      ensures Valid() && bufferMemory ==>
                && buffer != null && fresh(buffer) && buffer.Length == 1024 && numTempBuffers == old(numTempBuffers) + 1
                && tempBuffers[old(numTempBuffers)] == buffer
                && texts == old(texts) + [if status == Success then TextOf(encoding, oracleValue[..]).value else []]
      ensures Valid() && !bufferMemory ==> texts == old(texts)
      ensures Valid() ==> forall i :: 0 <= i < old(numTempBuffers) ==> tempBuffers[i] == old(tempBuffers[i])
      ensures status == Success ==> length == |TextOf(encoding, oracleValue[..]).value|
      ensures fresh(digits) && |before| == digits.Length == 60
      ensures if Valid() && bufferMemory then DigitsStored(oracleValue[..], before, digits[..]) else digits[..] == before
    {
      buffer, length, digits := null, 0, new nat[DIGIT_SPACE];
      before := digits[..];
      status := Reserve(arrayMemory);
      if status == Failure {
        return;
      }
      if !bufferMemory {
        return Failure, null, 0, digits, before;
      }
      status, buffer, length, digits, before := AddText(oracleValue);
    }
  }
}
