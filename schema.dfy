/** The records ParseStructBlock (main.go) builds: one FieldInfo per declared
    field and the StructInfo that collects them with the struct's keys. */
module Schema {

  /** A struct field: its name, its Go type, and whether gorm ignores it or
      treats it as a relation to another table. */
  datatype FieldInfo = FieldInfo(fieldName: string, fieldType: string, ignored: bool, external: bool)

  /** What the parser gathers about a struct. */
  datatype StructInfo = StructInfo(
    structName: string,
    fieldInfo: seq<FieldInfo>,
    uniqueIndices: map<string, seq<string>>,  // index name -> member field names, in order
    primaryKeys: seq<string>,
    columnMap: map<string, string>)           // field name -> column name

  /** The StructInfo the parser starts from. */
  const EmptyInfo := StructInfo([], [], map[], [], map[])

  /** The field names of `info`. */
  function FieldNames(info: StructInfo): set<string> {
    set k | 0 <= k < |info.fieldInfo| :: info.fieldInfo[k].fieldName
  }

  /** Every key name of `info` (primary keys, unique index members and
      column-map entries) is one of `names`. */
  predicate KeysWithin(info: StructInfo, names: set<string>) {
    && (forall k :: 0 <= k < |info.primaryKeys| ==> info.primaryKeys[k] in names)
    && (forall g :: g in info.uniqueIndices ==>
          forall k :: 0 <= k < |info.uniqueIndices[g]| ==> info.uniqueIndices[g][k] in names)
    && (forall n :: n in info.columnMap ==> n in names)
  }

  /** The invariant of the parser's result: every key names a field that was
      declared, and no field left in the list is an ignored one. */
  predicate WellFormed(info: StructInfo) {
    && KeysWithin(info, FieldNames(info))
    && forall k :: 0 <= k < |info.fieldInfo| ==> !info.fieldInfo[k].ignored
  }

  /** The empty StructInfo is well formed. */
  lemma EmptyWellFormed()
    ensures WellFormed(EmptyInfo)
  {
  }

  /** Names of `info` stay within a larger set of names. */
  lemma KeysWithinGrow(info: StructInfo, names: set<string>, more: set<string>)
    requires KeysWithin(info, names) && names <= more
    ensures KeysWithin(info, more)
  {
  }

  /** Appending a field adds its name to the field names. */
  lemma FieldNamesAppend(info: StructInfo, out: StructInfo, f: FieldInfo)
    requires out.fieldInfo == info.fieldInfo + [f]
    ensures FieldNames(out) == FieldNames(info) + {f.fieldName}
  {
    assert out.fieldInfo[|info.fieldInfo|] == f;
    forall n | n in FieldNames(out) ensures n in FieldNames(info) + {f.fieldName} {
      var k :| 0 <= k < |out.fieldInfo| && out.fieldInfo[k].fieldName == n;
      if k < |info.fieldInfo| {
        assert out.fieldInfo[k] == info.fieldInfo[k];
      }
    }
    forall n | n in FieldNames(info) ensures n in FieldNames(out) {
      var k :| 0 <= k < |info.fieldInfo| && info.fieldInfo[k].fieldName == n;
      assert out.fieldInfo[k] == info.fieldInfo[k];
    }
  }

  /** Appending a field that is not ignored, with keys among the old names
      and the new one, gives a well-formed StructInfo. */
  lemma AppendWellFormed(info: StructInfo, out: StructInfo, f: FieldInfo)
    requires WellFormed(info) && !f.ignored
    requires out.fieldInfo == info.fieldInfo + [f]
    requires KeysWithin(out, FieldNames(info) + {f.fieldName})
    ensures WellFormed(out)
  {
    FieldNamesAppend(info, out, f);
    forall k | 0 <= k < |out.fieldInfo| ensures !out.fieldInfo[k].ignored {
      if k < |info.fieldInfo| {
        assert out.fieldInfo[k] == info.fieldInfo[k];
      }
    }
  }
}
