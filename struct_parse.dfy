/** ParseStructBlock (main.go): reads a struct block line by line into a
    StructInfo. The gorm naming strategy that gives a field's default column
    name is the parameter `columnName`, applied to the struct name and the
    field name. */
module StructParse {
  import opened GoStrings
  import opened GoStringFacts
  import opened Outcome
  import opened Patterns
  import opened Squeeze
  import opened Schema
  import opened Directives

  /** fieldNameProcess: the name of an embedded field is the part of its type
      after the last dot. */
  function FieldNameOf(fn: string): (r: string)
    ensures '.' !in r
    ensures '.' !in fn ==> r == fn
    ensures '.' in fn ==> |r| < |fn| && fn[|fn| - |r| - 1] == '.' && r == fn[|fn| - |r|..]
  {
    ContainsChar(fn, ".");
    if Contains(fn, ".") then
      var l := LastIndex(fn, ".");
      OccursAt1(fn, ".", l);
      forall j | l < j < |fn| ensures fn[j] != '.' {
        NotAfterLast(fn, ".", j);
      }
      var u := fn[l + 1..];
      assert '.' !in u by {
        forall k | 0 <= k < |u| ensures u[k] != '.' {
          assert u[k] == fn[l + 1 + k];
        }
      }
      u
    else fn
  }

  /** The name and type of a declaration: two words are the name and the type;
      one word is an embedded type, named by FieldNameOf; anything else gives
      an empty name and type. */
  function Declaration(trimmed: string): (string, string) {
    var splits := Split(Squeezed(trimmed, ' '), ' ');
    if |splits| == 2 then (splits[0], splits[1])
    else if |splits| == 1 then (FieldNameOf(splits[0]), splits[0])
    else ([], [])
  }

  /** The body of the leftmost gorm:"…" match of a tag, trimmed. */
  function GormBody(tag: string): string {
    match FirstGorm(tag)
    case None => []
    case Some((i, e)) =>
      GormEndSound(tag, i);
      BodyAt(tag, i, e)
  }

  /** The text between the quotes of a gorm match at tag[i..e], trimmed. */
  function BodyAt(tag: string, i: nat, e: nat): string
    requires i + 6 <= e - 1 <= |tag|
  {
    TrimSpace(tag[i + 6..e - 1])
  }

  /** The directives of a tag's gorm body. */
  function Items(tag: string): seq<Directive> {
    ParseItems(Split(GormBody(tag), ';'))
  }

  /** A line with its tag cut out, trimmed. */
  function Untagged(line: string): string
    requires '\n' !in line
  {
    var tag := Tag(line);
    if tag != [] then TrimSpace(RemoveAll(line, tag)) else TrimSpace(line)
  }

  /** The effect of one line of the block. */
  function ParseLine(info: StructInfo, line: string, columnName: (string, string) -> string): StructInfo
    requires '\n' !in line
  {
    match FirstStructLine(line)
    case Some((p, h)) =>
      StructLineSound(line, p);
      info.(structName := NameOfMatch(line[p..h.end]))
    case None =>
      var tag := Tag(line);
      var trimmed := Untagged(line);
      if trimmed == [] || HasSuffix(trimmed, "}") then info
      else
        var (fieldname, fieldtype) := Declaration(trimmed);
        if IgnoreMatch(tag) then info
        else AddField(info, fieldname, fieldtype, tag, columnName)
  }

  /** A kept field: with a gorm:"…" body the field first gets its default
      column name and then the body's items are applied; the field is
      appended last. */
  function AddField(info: StructInfo, fieldname: string, fieldtype: string, tag: string,
                    columnName: (string, string) -> string): StructInfo
  {
    if FirstGorm(tag).Some? then WithItems(info, fieldname, fieldtype, Items(tag), columnName)
    else info.(fieldInfo := info.fieldInfo + [FieldInfo(fieldname, fieldtype, false, false)])
  }

  /** A field with a gorm body whose items are `ds`. */
  function WithItems(info: StructInfo, fieldname: string, fieldtype: string, ds: seq<Directive>,
                     columnName: (string, string) -> string): StructInfo
  {
    var named := info.(columnMap := info.columnMap[fieldname := columnName(info.structName, fieldname)]);
    var (after, external) := ApplyAll(named, fieldname, ds);
    after.(fieldInfo := after.fieldInfo + [FieldInfo(fieldname, fieldtype, false, external)])
  }

  /** No piece of `lines` holds a line break. */
  predicate Lines(lines: seq<string>) {
    forall i :: 0 <= i < |lines| ==> '\n' !in lines[i]
  }

  /** The StructInfo after the given lines, in order. */
  function ParseAll(lines: seq<string>, columnName: (string, string) -> string): StructInfo
    requires Lines(lines)
  {
    if lines == [] then EmptyInfo
    else ParseLine(ParseAll(lines[..|lines| - 1], columnName), lines[|lines| - 1], columnName)
  }

  /** What ParseStructBlock returns for a block. */
  function ParseBlock(block: string, columnName: (string, string) -> string): StructInfo {
    ParseAll(Split(block, '\n'), columnName)
  }

  /** ParseStructBlock: the loop over the lines of the block. */
  method ParseStructBlock(block: string, columnName: (string, string) -> string) returns (info: StructInfo)
    ensures info == ParseBlock(block, columnName)
  {
    var lines := Split(block, '\n');
    info := EmptyInfo;
    for i := 0 to |lines|
      invariant info == ParseAll(lines[..i], columnName)
    {
      assert lines[..i + 1][..i] == lines[..i];
      info := ParseFieldLine(info, lines[i], columnName);
    }
    assert lines[..|lines|] == lines;
  }

  /** The body of the line loop; each early return is a `continue` of the
      source. */
  method ParseFieldLine(info: StructInfo, line: string, columnName: (string, string) -> string)
    returns (next: StructInfo)
    requires '\n' !in line
    ensures next == ParseLine(info, line, columnName)
  {
    var header := FirstStructLine(line);
    if header.Some? {
      var (p, h) := header.value;
      StructLineSound(line, p);
      var structName := TrimSpace(TrimLeftSet(TrimRightSet(line[p..h.end], StructCut), TypeCut));
      return info.(structName := structName);
    }
    var tag := Tag(line);
    var trimmed;
    if tag != [] {
      trimmed := TrimSpace(RemoveAll(line, tag));
    } else {
      trimmed := TrimSpace(line);
    }
    if trimmed == [] || HasSuffix(trimmed, "}") {
      return info;
    }
    var fieldname, fieldtype := SplitDeclaration(trimmed);
    if IgnoreMatch(tag) {
      // the field is marked ignored and never added
      return info;
    }
    next := info;
    var external := false;
    if FirstGorm(tag).Some? {
      next := next.(columnMap := next.columnMap[fieldname := columnName(next.structName, fieldname)]);
      next, external := GormDirectives(next, fieldname, tag);
    }
    next := next.(fieldInfo := next.fieldInfo + [FieldInfo(fieldname, fieldtype, false, external)]);
  }

  /** Splits a declaration into name and type, after squeezing its spaces. */
  method SplitDeclaration(trimmed: string) returns (fieldname: string, fieldtype: string)
    ensures (fieldname, fieldtype) == Declaration(trimmed)
  {
    var squeezed := Squeeze.Squeeze(trimmed, ' ');
    var splits := Split(squeezed, ' ');
    fieldname, fieldtype := [], [];
    if |splits| == 2 {
      fieldname, fieldtype := splits[0], splits[1];
    } else if |splits| == 1 {
      fieldname, fieldtype := FieldNameOf(splits[0]), splits[0];
    }
  }

  /** Reads the gorm:"…" body of a tag and applies its items. */
  method GormDirectives(info: StructInfo, fieldname: string, tag: string)
    returns (next: StructInfo, external: bool)
    requires FirstGorm(tag).Some?
    ensures (next, external) == ApplyAll(info, fieldname, Items(tag))
  {
    var (i, e) := FirstGorm(tag).value;
    GormText(tag, i, e);
    var gormInfo := TrimSpace(tag[i..e]);
    gormInfo := TrimSpace(gormInfo[6..|gormInfo| - 1]);
    var gormInfos := Split(gormInfo, ';');
    next, external := ApplyDirectives(info, fieldname, gormInfos);
  }

  /** The two trims of the source applied to the leftmost gorm match give the
      body whose items Items reads. */
  lemma GormText(tag: string, i: nat, e: nat)
    requires FirstGorm(tag) == Some((i, e))
    ensures i <= e <= |tag| && |TrimSpace(tag[i..e])| >= 7
    ensures var g := TrimSpace(tag[i..e]);
      Items(tag) == ParseItems(Split(TrimSpace(g[6..|g| - 1]), ';'))
  {
    GormMatchIs(tag, i, e);
    TrimmedBody(tag, i, e);
  }

  /** Trimming a gorm match, dropping its first six and its last character and
      trimming again gives BodyAt. */
  lemma TrimmedBody(tag: string, i: nat, e: nat)
    requires i < e <= |tag| && IsGormMatch(tag[i..e])
    ensures |TrimSpace(tag[i..e])| >= 7 && i + 6 <= e - 1
    ensures var g := TrimSpace(tag[i..e]); TrimSpace(g[6..|g| - 1]) == BodyAt(tag, i, e)
  {
    GormMatchAt(tag, i, e);
  }

  /** The leftmost gorm:"…" match, and GormBody is its text between the
      quotes, trimmed. */
  lemma GormMatchIs(tag: string, i: nat, e: nat)
    requires FirstGorm(tag) == Some((i, e))
    ensures i < e <= |tag| && IsGormMatch(tag[i..e])
    ensures i + 6 <= e - 1 && GormBody(tag) == BodyAt(tag, i, e)
    ensures Items(tag) == ParseItems(Split(BodyAt(tag, i, e), ';'))
  {
    GormEndSound(tag, i);
  }

  /** A gorm:"…" match starts with a letter and ends with a quote, so it
      needs no trimming; its body lies between the quotes. */
  lemma GormMatchAt(tag: string, i: nat, e: nat)
    requires i < e <= |tag| && IsGormMatch(tag[i..e])
    ensures var m := tag[i..e];
      TrimSpace(m) == m && |m| >= 8 && m[6..|m| - 1] == tag[i + 6..e - 1]
  {
    GormTrimmed(tag[i..e]);
    SliceOfSlice(tag, i, e, 6, e - i - 1);
  }

  /** A gorm match starts with 'g' and ends with a quote, so trimming keeps it. */
  lemma GormTrimmed(m: string)
    requires IsGormMatch(m)
    ensures TrimSpace(m) == m
  {
    assert m[0] == m[..6][0] == 'g';
    assert !IsSpace(m[0]) && !IsSpace(m[|m| - 1]);
  }

  // ---------------------------------------------------------------------
  // What one line contributes

  /** A line that declares a field the parser keeps: not the struct line,
      not blank or a closing brace once its tag is cut out, and not ignored. */
  predicate IsFieldLine(line: string)
    requires '\n' !in line
  {
    && FirstStructLine(line).None?
    && Untagged(line) != [] && !HasSuffix(Untagged(line), "}")
    && !IgnoreMatch(Tag(line))
  }

  /** The field a line adds, worked out from the line alone. */
  function LineField(line: string): Option<FieldInfo>
    requires '\n' !in line
  {
    if IsFieldLine(line) then
      var (fieldname, fieldtype) := Declaration(Untagged(line));
      var tag := Tag(line);
      Some(FieldInfo(fieldname, fieldtype, false, FirstGorm(tag).Some? && HasForeignKey(Items(tag))))
    else None
  }

  /** The primary keys a line adds, worked out from the line alone. */
  function LinePrimaryKeys(line: string): seq<string>
    requires '\n' !in line
  {
    if IsFieldLine(line) && FirstGorm(Tag(line)).Some? then
      PrimaryKeysOf(Items(Tag(line)), Declaration(Untagged(line)).0)
    else []
  }

  /** A name and a type separated by a run of spaces: the run is squeezed to
      one space and the two words are the name and the type. */
  lemma DeclarationOfTwoWords(name: string, gap: string, typ: string)
    requires name != [] && typ != [] && ' ' !in name && ' ' !in typ
    requires gap != [] && forall k :: 0 <= k < |gap| ==> gap[k] == ' '
    ensures Declaration(name + gap + typ) == (name, typ)
  {
    SqueezedRun(name, gap, ' ');
    SqueezedAppendFree(name + gap, typ, ' ');
    SqueezedIdentity(name, ' ');
    SplitNoSep(typ, ' ');
    SplitAtFirst(name, ' ', typ);
  }

  /** A single word is an embedded type: it is the type, and the field is
      named after the part of it past the last dot. */
  lemma DeclarationOfOneWord(word: string)
    requires ' ' !in word
    ensures Declaration(word) == (FieldNameOf(word), word)
  {
    SqueezedIdentity(word, ' ');
    SplitNoSep(word, ' ');
  }

  /** Three words or more leave both name and type empty. */
  lemma DeclarationOfMoreWords(trimmed: string)
    requires Count(Squeezed(trimmed, ' '), ' ') >= 2
    ensures Declaration(trimmed) == ([], [])
  {
    SplitCount(Squeezed(trimmed, ' '), ' ');
  }

  /** gorm's embedded model: the field is named Model. */
  lemma EmbeddedModel()
    ensures Declaration("gorm.Model") == ("Model", "gorm.Model")
  {
    var w := "gorm.Model";
    assert w[4] == '.';
    DeclarationOfOneWord(w);
    var r := FieldNameOf(w);
    var k := |w| - |r| - 1;
    assert w[k] == '.';
    assert forall j :: 0 <= j < |w| && j != 4 ==> w[j] != '.';
    assert k == 4;
  }

  /** Cutting the tag out of a line removes the text from its first backtick
      to its last one, and nothing else. */
  lemma UntaggedIs(line: string)
    requires '\n' !in line
    ensures Untagged(line) == TrimSpace(
      match TagSpan(line)
      case Some((p, q)) => line[..p] + line[q..]
      case None => line)
  {
    if TagSpan(line).Some? {
      RemoveTag(line);
    }
  }

  /** The struct line sets the struct name to the identifier it matched and
      changes nothing else. */
  lemma HeaderLineSetsName(info: StructInfo, line: string, columnName: (string, string) -> string)
    requires '\n' !in line && FirstStructLine(line).Some?
    ensures var h := FirstStructLine(line).value.1;
      && h.lo < h.hi <= |line| && AllWord(line[h.lo..h.hi])
      && ParseLine(info, line, columnName) == info.(structName := line[h.lo..h.hi])
  {
    var (p, h) := FirstStructLine(line).value;
    NameOfMatchIsIdentifier(line, p);
    StructLineSound(line, p);
    SliceOfSlice(line, p, h.end, h.lo - p, h.hi - p);
  }

  /** A line with no field to keep (blank, a closing brace, or a field whose
      tag matches gorm:"-…") changes nothing: its name reaches none of the
      field list, the primary keys, the unique indices or the column map. */
  lemma NonFieldLineChangesNothing(info: StructInfo, line: string, columnName: (string, string) -> string)
    requires '\n' !in line && FirstStructLine(line).None? && !IsFieldLine(line)
    ensures ParseLine(info, line, columnName) == info
  {
  }

  /** A field line is parsed by AddField on its declaration and its tag. */
  lemma FieldLineIsAddField(info: StructInfo, line: string, columnName: (string, string) -> string)
    requires '\n' !in line && IsFieldLine(line)
    ensures var (fieldname, fieldtype) := Declaration(Untagged(line));
      ParseLine(info, line, columnName) == AddField(info, fieldname, fieldtype, Tag(line), columnName)
  {
  }

  /** With a gorm body, the field is appended, marked external exactly when
      the body holds a foreignkey item; the struct name is kept, the body's
      primaryKey items are appended, and no name but the field's own enters
      the keys. */
  lemma WithItemsFacts(info: StructInfo, fieldname: string, fieldtype: string, ds: seq<Directive>,
                       columnName: (string, string) -> string, names: set<string>)
    ensures var out := WithItems(info, fieldname, fieldtype, ds, columnName);
      && out.fieldInfo == info.fieldInfo + [FieldInfo(fieldname, fieldtype, false, HasForeignKey(ds))]
      && out.structName == info.structName
      && out.primaryKeys == info.primaryKeys + PrimaryKeysOf(ds, fieldname)
      && (KeysWithin(info, names) ==> KeysWithin(out, names + {fieldname}))
  {
    var named := info.(columnMap := info.columnMap[fieldname := columnName(info.structName, fieldname)]);
    if KeysWithin(info, names) {
      KeysWithinGrow(info, names, names + {fieldname});
    }
    ApplyAllKeys(named, fieldname, ds, names + {fieldname});
    ExternalIffForeignKey(named, fieldname, ds);
    ApplyAllPrimaryKeys(named, fieldname, ds);
  }

  /** A field line appends exactly the field LineField describes, keeps the
      struct name, appends its primaryKey items, and lets no name but its own
      field's into the keys. */
  lemma FieldLineAppends(info: StructInfo, line: string, columnName: (string, string) -> string, names: set<string>)
    requires '\n' !in line && IsFieldLine(line)
    ensures var out := ParseLine(info, line, columnName);
      && out.fieldInfo == info.fieldInfo + [LineField(line).value]
      && out.structName == info.structName
      && out.primaryKeys == info.primaryKeys + LinePrimaryKeys(line)
      && (KeysWithin(info, names) ==> KeysWithin(out, names + {LineField(line).value.fieldName}))
  {
    FieldLineIsAddField(info, line, columnName);
    var (fieldname, fieldtype) := Declaration(Untagged(line));
    var tag := Tag(line);
    if FirstGorm(tag).Some? {
      WithItemsFacts(info, fieldname, fieldtype, Items(tag), columnName, names);
    } else if KeysWithin(info, names) {
      KeysWithinGrow(info, names, names + {fieldname});
    }
  }

  /** The column-map rule of a gorm body: a foreignkey item leaves the field
      without an entry; otherwise the entry is the last column:<v> value or,
      without one, the naming strategy's name. Other entries are untouched. */
  lemma WithItemsColumn(info: StructInfo, fieldname: string, fieldtype: string, ds: seq<Directive>,
                        columnName: (string, string) -> string)
    ensures WithItems(info, fieldname, fieldtype, ds, columnName).columnMap ==
      if HasForeignKey(ds) then info.columnMap - {fieldname}
      else info.columnMap[fieldname :=
        match LastColumn(ds)
        case Some(c) => c
        case None => columnName(info.structName, fieldname)]
  {
    var named := info.(columnMap := info.columnMap[fieldname := columnName(info.structName, fieldname)]);
    ApplyAllColumns(named, fieldname, ds);
    assert named.columnMap - {fieldname} == info.columnMap - {fieldname};
  }

  /** The column-map rule for a field line: without a gorm body its entry is
      unchanged, with one it follows WithItemsColumn. */
  lemma FieldLineColumn(info: StructInfo, line: string, columnName: (string, string) -> string)
    requires '\n' !in line && IsFieldLine(line)
    ensures var fieldname := Declaration(Untagged(line)).0;
      var ds := Items(Tag(line));
      ParseLine(info, line, columnName).columnMap ==
        if FirstGorm(Tag(line)).None? then info.columnMap
        else if HasForeignKey(ds) then info.columnMap - {fieldname}
        else info.columnMap[fieldname :=
          match LastColumn(ds)
          case Some(c) => c
          case None => columnName(info.structName, fieldname)]
  {
    FieldLineIsAddField(info, line, columnName);
    var (fieldname, fieldtype) := Declaration(Untagged(line));
    if FirstGorm(Tag(line)).Some? {
      WithItemsColumn(info, fieldname, fieldtype, Items(Tag(line)), columnName);
    }
  }

  /** A field line without a gorm body adds its field and nothing else. */
  lemma NoGormLine(info: StructInfo, line: string, columnName: (string, string) -> string)
    requires '\n' !in line && IsFieldLine(line) && FirstGorm(Tag(line)).None?
    ensures ParseLine(info, line, columnName) == info.(fieldInfo := info.fieldInfo + [LineField(line).value])
    ensures !LineField(line).value.external
  {
    FieldLineIsAddField(info, line, columnName);
  }

  /** uniqueindex:<g> items of a field line append its name to index `g` in
      order, for every `g` other than the field's own name. */
  lemma FieldLineGroups(info: StructInfo, line: string, columnName: (string, string) -> string, g: string)
    requires '\n' !in line && IsFieldLine(line)
    requires g != Declaration(Untagged(line)).0
    ensures var fieldname := Declaration(Untagged(line)).0;
      var adds := if FirstGorm(Tag(line)).Some? then GroupAdds(Items(Tag(line)), fieldname, g) else [];
      var ui := ParseLine(info, line, columnName).uniqueIndices;
      && Members(ui, g) == Members(info.uniqueIndices, g) + adds
      && (g in ui <==> g in info.uniqueIndices || adds != [])
  {
    FieldLineIsAddField(info, line, columnName);
    var (fieldname, fieldtype) := Declaration(Untagged(line));
    if FirstGorm(Tag(line)).Some? {
      var named := info.(columnMap := info.columnMap[fieldname := columnName(info.structName, fieldname)]);
      ApplyAllGroups(named, fieldname, Items(Tag(line)), g);
    }
  }

  // ---------------------------------------------------------------------
  // The whole block

  /** The fields of the lines, in line order. */
  function Fields(lines: seq<string>): seq<FieldInfo>
    requires Lines(lines)
  {
    if lines == [] then []
    else
      Fields(lines[..|lines| - 1]) +
        match LineField(lines[|lines| - 1])
        case Some(f) => [f]
        case None => []
  }

  /** The primary keys of the lines, in line order. */
  function PrimaryKeysAll(lines: seq<string>): seq<string>
    requires Lines(lines)
  {
    if lines == [] then []
    else PrimaryKeysAll(lines[..|lines| - 1]) + LinePrimaryKeys(lines[|lines| - 1])
  }

  /** One line keeps the StructInfo well formed. */
  lemma ParseLineWellFormed(info: StructInfo, line: string, columnName: (string, string) -> string)
    requires '\n' !in line && WellFormed(info)
    ensures WellFormed(ParseLine(info, line, columnName))
  {
    if FirstStructLine(line).Some? {
      HeaderLineSetsName(info, line, columnName);
    } else if IsFieldLine(line) {
      FieldLineAppends(info, line, columnName, FieldNames(info));
      AppendWellFormed(info, ParseLine(info, line, columnName), LineField(line).value);
    } else {
      NonFieldLineChangesNothing(info, line, columnName);
    }
  }

  /** The parser's result is well formed: every primary key, unique index
      member and column-map key is a declared field, and no ignored field is
      listed. */
  lemma {:induction false} ParseAllWellFormed(lines: seq<string>, columnName: (string, string) -> string)
    requires Lines(lines)
    ensures WellFormed(ParseAll(lines, columnName))
  {
    if lines == [] {
      EmptyWellFormed();
    } else {
      ParseAllWellFormed(lines[..|lines| - 1], columnName);
      ParseLineWellFormed(ParseAll(lines[..|lines| - 1], columnName), lines[|lines| - 1], columnName);
    }
  }

  /** The field list is the fields of the lines in line order, whatever the
      struct name and the naming strategy. */
  lemma {:induction false} ParseAllFields(lines: seq<string>, columnName: (string, string) -> string)
    requires Lines(lines)
    ensures ParseAll(lines, columnName).fieldInfo == Fields(lines)
    ensures ParseAll(lines, columnName).primaryKeys == PrimaryKeysAll(lines)
  {
    if lines != [] {
      var init := lines[..|lines| - 1];
      var line := lines[|lines| - 1];
      ParseAllFields(init, columnName);
      var info := ParseAll(init, columnName);
      if FirstStructLine(line).Some? {
        HeaderLineSetsName(info, line, columnName);
      } else if IsFieldLine(line) {
        FieldLineAppends(info, line, columnName, {});
      } else {
        NonFieldLineChangesNothing(info, line, columnName);
      }
    }
  }

  /** ParseStructBlock's result is well formed, and lists the block's fields
      and primary keys in line order. */
  lemma ParseBlockFacts(block: string, columnName: (string, string) -> string)
    ensures var info := ParseBlock(block, columnName);
      var lines := Split(block, '\n');
      && WellFormed(info)
      && info.fieldInfo == Fields(lines)
      && info.primaryKeys == PrimaryKeysAll(lines)
  {
    ParseAllWellFormed(Split(block, '\n'), columnName);
    ParseAllFields(Split(block, '\n'), columnName);
  }

  /** An empty block gives the empty StructInfo. */
  lemma EmptyBlock(columnName: (string, string) -> string)
    ensures ParseBlock([], columnName) == EmptyInfo
  {
    assert Split([], '\n') == [[]];
    var lines := Split([], '\n');
    assert lines[..0] == [];
    assert FirstStructLine([]).None? by {
      assert StructLineAt([], 0).None?;
    }
    assert Untagged([]) == [];
  }
}
