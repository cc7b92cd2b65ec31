/** The walk's table of scalar types agrees with what their names say. */
module CScalarCorrect {
  import opened Common
  import opened BindgenTypes
  import opened CLayout
  import opened CScalarSpec

  /** Every row of the table is what the name means. */
  lemma ScalarLayoutSound(name: string, arguments: nat, pointer: PointerBytes)
    requires ScalarLayout(name, arguments, pointer).Some?
    ensures var (size, align) := ScalarLayout(name, arguments, pointer).value;
            ScalarMeans(name, arguments, pointer, size, align)
  {
    Spellings();
    var (size, align) := ScalarLayout(name, arguments, pointer).value;
    if name in ["Int8", "UInt8"] { assert IntegerNamed(name, 8); }
    else if name in ["Int16", "UInt16"] { assert IntegerNamed(name, 16); }
    else if name in ["Int32", "UInt32"] { assert IntegerNamed(name, 32); }
    else if name in ["Int64", "UInt64"] { assert IntegerNamed(name, 64); }
    else if name in ["Float32", "F32"] { assert FloatNamed(name, 32); }
    else if name in ["Float64", "F64"] { assert FloatNamed(name, 64); }
    else if name == "Float2" { assert LanesNamed(name, 2); }
    else if name == "Float3" { assert LanesNamed(name, 3); }
    else if name == "Float4" { assert LanesNamed(name, 4); }
    else if name == "Float8" { assert LanesNamed(name, 8); }
    else if name == "Slice" { assert WordsNamed(name, arguments, 2); }
    else if name == "String" { assert WordsNamed(name, arguments, 3); }
    else if name != "Status" { assert WordsNamed(name, arguments, 1); }
  }

  lemma IntegersHaveWidth(name: string, arguments: nat, pointer: PointerBytes, bits: nat)
    requires IntegerNamed(name, bits)
    ensures ScalarLayout(name, arguments, pointer) == Some((bits / BYTE, bits / BYTE))
  {
    Spellings();
    if bits == 8 { assert name in ["Int8", "UInt8"]; }
    else if bits == 16 { assert name in ["Int16", "UInt16"]; }
    else if bits == 32 { assert name == "Int32" || name == "UInt32"; }
    else { assert name == "Int64" || name == "UInt64"; }
  }

  lemma FloatsHaveWidth(name: string, arguments: nat, pointer: PointerBytes, bits: nat)
    requires FloatNamed(name, bits)
    ensures ScalarLayout(name, arguments, pointer) == Some((bits / BYTE, bits / BYTE))
  {
    Spellings();
    if bits == 32 { assert name == "Float32" || name == "F32"; } else { assert name == "Float64" || name == "F64"; }
  }

  lemma LanesHaveSize(name: string, arguments: nat, pointer: PointerBytes, lanes: nat)
    requires LanesNamed(name, lanes)
    ensures ScalarLayout(name, arguments, pointer) == Some((lanes * 4, 4))
  {
    Spellings();
    if lanes == 2 { assert name == "Float2"; } else if lanes == 3 { assert name == "Float3"; }
    else if lanes == 4 { assert name == "Float4"; } else { assert name == "Float8"; }
  }

  lemma WordsHaveSize(name: string, arguments: nat, pointer: PointerBytes, words: nat)
    requires WordsNamed(name, arguments, words)
    ensures ScalarLayout(name, arguments, pointer) == Some((words * pointer, pointer))
  {
  }

  /** Every name with a meaning has its row. */
  lemma ScalarLayoutComplete(name: string, arguments: nat, pointer: PointerBytes, size: nat, align: nat)
    requires ScalarMeans(name, arguments, pointer, size, align)
    ensures size <= U64_MAX && align <= U64_MAX && ScalarLayout(name, arguments, pointer) == Some((size, align))
  {
    if bits: nat :| IntegerNamed(name, bits) && size * BYTE == bits && align == size {
      IntegersHaveWidth(name, arguments, pointer, bits);
    } else if bits: nat :| FloatNamed(name, bits) && size * BYTE == bits && align == size {
      FloatsHaveWidth(name, arguments, pointer, bits);
    } else if lanes: nat :| LanesNamed(name, lanes) && size == lanes * 4 && align == 4 {
      LanesHaveSize(name, arguments, pointer, lanes);
    } else if words: nat :| WordsNamed(name, arguments, words) && size == words * pointer && align == pointer {
      WordsHaveSize(name, arguments, pointer, words);
    }
  }

  lemma ScalarNamesAreBare(name: string, arguments: nat, pointer: PointerBytes)
    requires ScalarLayout(name, arguments, pointer).Some?
    ensures name != "" && '.' !in name
  {
  }

  /** Looking up the text of a path finds a scalar exactly when the path is its bare name. */
  lemma ScalarPathIsExact(segments: seq<string>, arguments: nat, pointer: PointerBytes)
    ensures forall size: nat, align: nat :: ScalarPath(segments, arguments, pointer, size, align) <==>
              && size <= U64_MAX && align <= U64_MAX
              && ScalarLayout(PathText(segments), arguments, pointer) == Some((size, align))
    ensures NamesScalar(segments, arguments, pointer) <==> ScalarLayout(PathText(segments), arguments, pointer).Some?
  {
    var name := PathText(segments);
    if ScalarLayout(name, arguments, pointer).Some? {
      ScalarNamesAreBare(name, arguments, pointer);
      TextIsUnqualified(segments, name);
      ScalarLayoutSound(name, arguments, pointer);
      var (size, align) := ScalarLayout(name, arguments, pointer).value;
      assert ScalarPath(segments, arguments, pointer, size, align);
    }
    forall size: nat, align: nat | ScalarPath(segments, arguments, pointer, size, align)
      ensures size <= U64_MAX && align <= U64_MAX && ScalarLayout(name, arguments, pointer) == Some((size, align))
    {
      ScalarLayoutComplete(name, arguments, pointer, size, align);
    }
  }
}
