/** The serializer and deserializer objects, and the loops that write and read vectors through them. */
module TlStreams {
  import opened Prelude
  import opened Bytes
  import opened TlSerde

  class Serializer {
    var output: seq<Byte>

    constructor ()
      ensures output == []
    {
      output := [];
    }

    method PutSlice(s: seq<Byte>)
      modifies this
      ensures output == old(output) + s
    {
      output := output + s;
    }

    method WriteConstructorNumber(number: nat)
      modifies this
      ensures output == old(output) + Be32(number)
    {
      PutSlice(Be32(number));
    }

    method WriteI31(w: nat)
      modifies this
      ensures output == old(output) + EncI31(w)
    {
      PutSlice(LeBytes(w % P31, 4));
    }

    method WriteBytes(val: seq<Byte>)
      modifies this
      ensures output == old(output) + EncBytes(val)
    {
      var head: seq<Byte>, padding: nat;
      if |val| <= 253 {
        head, padding := [|val|], (|val| + 1) % 4;
      } else {
        head, padding := [254] + LeBytes(|val|, LEN_BYTES), (|val| + 4) % 4;
      }
      ghost var was := output;
      PutSlice(head);
      PutSlice(val);
      if padding > 0 {
        PutSlice(Zeros(4 - padding));
        assert output == was + (head + val + Zeros(4 - padding));
      } else {
        assert output == was + (head + val + Zeros(0));
      }
    }
  }

  class Deserializer {
    var input: seq<Byte>

    constructor FromBytes(s: seq<Byte>)
      ensures input == s
    {
      input := s;
    }

    /** Takes `n` bytes off the input; too few make the reader panic. */
    method Take(n: nat) returns (r: Option<seq<Byte>>)
      modifies this
      ensures |old(input)| < n ==> r == None && input == old(input)
      ensures |old(input)| >= n ==> r == Some(old(input[..n])) && input == old(input[n..])
    {
      if |input| < n {
        return None;
      }
      r := Some(input[..n]);
      input := input[n..];
    }

    method ParseConstructorNumber() returns (r: Parse<nat>)
      modifies this
      ensures |old(input)| < 4 ==> r == Panics
      ensures |old(input)| >= 4 ==> r == Done(FromBe32(old(input[..4])), old(input[4..])) && input == r.rest
    {
      var s := Take(4);
      if s.None? {
        return Panics;
      }
      return Done(FromBe32(s.value), input);
    }

    method ParseI31() returns (r: Parse<nat>)
      modifies this
      ensures r == DecI31(old(input)) && (r.Done? ==> input == r.rest)
    {
      var s := Take(4);
      if s.None? {
        return Panics;
      }
      return Done(FromLe(s.value) % P31, input);
    }

    /** Copies `len` bytes out and skips the padding behind them. */
    method TakeBody(len: nat, padding: nat) returns (r: Parse<seq<Byte>>)
      requires padding < 4
      modifies this
      ensures r == TakePadded(old(input), len, if padding > 0 then 4 - padding else 0) && (r.Done? ==> input == r.rest)
    {
      ghost var s := input;
      var result := Take(len);
      if result.None? {
        return Panics;
      }
      if padding > 0 {
        var skipped := Take(4 - padding);
        if skipped.None? {
          return Panics;
        }
        assert input == s[len + (4 - padding)..];
      }
      return Done(result.value, input);
    }

    method ParseBytes() returns (r: Parse<seq<Byte>>)
      modifies this
      ensures r == DecBytes(old(input)) && (r.Done? ==> input == r.rest)
    {
      ghost var s := input;
      var first := Take(1);
      if first.None? {
        return Panics;
      }
      var len := first.value[0];
      if len <= 253 {
        r := TakeBody(len, (len + 1) % 4);
      } else {
        var bytes := Take(3);
        if bytes.None? {
          return Panics;
        }
        assert bytes.value == s[1..4] && input == s[4..];
        var long := FromLe(bytes.value);
        r := TakeBody(long, long % 4);
      }
    }
  }

  /** `Serialize for Vector<T>`. */
  method SerializeVector<V>(c: Tl<V>, vs: seq<V>, se: Serializer)
    modifies se
    ensures se.output == old(se.output) + EncVector(c, vs)
  {
    ghost var was := se.output;
    se.WriteI31(|vs|);
    assert vs[..0] == [];
    for i := 0 to |vs|
      invariant se.output == was + (EncI31(|vs|) + EncAll(c, vs[..i]))
    {
      assert vs[..i + 1][..i] == vs[..i];
      assert was + (EncI31(|vs|) + EncAll(c, vs[..i])) + c.put(vs[i]) ==
          was + (EncI31(|vs|) + (EncAll(c, vs[..i]) + c.put(vs[i])));
      se.PutSlice(c.put(vs[i]));
    }
    assert vs[..|vs|] == vs;
  }

  /** `Deserialize for Vector<T>`: the element reader advances the same input. */
  method DeserializeVector<V>(c: Tl<V>, de: Deserializer) returns (r: Parse<seq<V>>)
    modifies de
    ensures r == DecVector(c, old(de.input)) && (r.Done? ==> de.input == r.rest)
  {
    var len := de.ParseI31();
    if !len.Done? {
      return Panics;
    }
    var buf: seq<V> := [];
    ghost var all := DecMany(c, [], len.value, de.input);
    for i := 0 to len.value
      invariant DecMany(c, buf, len.value - i, de.input) == all
    {
      match c.get(de.input) {
        case Done(v, rest) =>
          buf := buf + [v];
          de.input := rest;
        case UnexpectedNumber(m, rest) => return UnexpectedNumber(m, rest);
        case Malformed(rest) => return Malformed(rest);
        case Panics => return Panics;
      }
    }
    return Done(buf, de.input);
  }
}
