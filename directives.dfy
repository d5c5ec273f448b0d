/** The directives of a field's gorm tag body ("primaryKey;column:id;…") and
    what each one does to the StructInfo (main.go, ParseStructBlock). */
module Directives {
  import opened GoStrings
  import opened GoStringFacts
  import opened Schema
  import opened Outcome

  /** One `;`-separated item of a gorm tag body, as the parser reads it. */
  datatype Directive =
    | GroupIndex(group: string)  // uniqueindex:<group>
    | Column(column: string)     // column:<name>
    | ForeignKey                 // foreignkey:<…>
    | OwnIndex                   // a bare uniqueindex
    | PrimaryKey                 // a bare primarykey
    | NoEffect                   // anything else, empty items included

  /** A text holding the separator splits into at least two pieces. */
  lemma {:induction false} SplitTwo(s: string, sep: char)
    requires sep in s
    ensures |Split(s, sep)| >= 2
  {
    if s[0] != sep {
      assert sep in s[1..];
      SplitTwo(s[1..], sep);
    }
  }

  /** A one-character pattern is contained exactly when its character is. */
  lemma ContainsChar(s: string, pat: string)
    requires |pat| == 1
    ensures Contains(s, pat) <==> pat[0] in s
  {
    if pat[0] in s {
      var j :| 0 <= j < |s| && s[j] == pat[0];
      assert s[j..j + 1] == pat;
      assert OccursAt(s, pat, j);
      assert Index(s, pat) != -1;
    }
    if Contains(s, pat) {
      var j := Index(s, pat);
      assert s[j..j + 1] == pat;
      assert s[j] == pat[0];
    }
  }

  /** How the parser reads one item: trimmed and lower-cased; with a ':' the
      key is the first ':'-segment and the value the second one. */
  function ParseDirective(gi: string): Directive {
    ReadItem(ToLower(TrimSpace(gi)))
  }

  /** The directive of an item already trimmed and lower-cased. */
  function ReadItem(trmd: string): Directive {
    if trmd == [] then NoEffect
    else if Contains(trmd, ":") then
      ContainsChar(trmd, ":");
      SplitTwo(trmd, ':');
      var splts := Split(trmd, ':');
      KeyValue(splts[0], splts[1])
    else if trmd == "uniqueindex" then OwnIndex
    else if trmd == "primarykey" then PrimaryKey
    else NoEffect
  }

  /** The directive of a `key:value` item. */
  function KeyValue(k: string, v: string): Directive {
    if k == "uniqueindex" then GroupIndex(v)
    else if k == "column" then Column(v)
    else if k == "foreignkey" then ForeignKey
    else NoEffect
  }

  /** The member list of index `g`, empty when there is no such index. */
  function Members(m: map<string, seq<string>>, g: string): seq<string> {
    if g in m then m[g] else []
  }

  /** The effect of one directive of field `fieldname`. */
  function Apply(info: StructInfo, fieldname: string, d: Directive): StructInfo {
    match d
    case GroupIndex(g) =>
      info.(uniqueIndices := info.uniqueIndices[g := Members(info.uniqueIndices, g) + [fieldname]])
    case Column(c) => info.(columnMap := info.columnMap[fieldname := c])
    case ForeignKey => info.(columnMap := info.columnMap - {fieldname})
    case OwnIndex => info.(uniqueIndices := info.uniqueIndices[fieldname := [fieldname]])
    case PrimaryKey => info.(primaryKeys := info.primaryKeys + [fieldname])
    case NoEffect => info
  }

  /** How the parser reads the items of a tag body. */
  function ParseItems(gis: seq<string>): (ds: seq<Directive>)
    ensures |ds| == |gis| && forall i :: 0 <= i < |gis| ==> ds[i] == ParseDirective(gis[i])
  {
    seq(|gis|, i requires 0 <= i < |gis| => ParseDirective(gis[i]))
  }

  /** The directives applied in order, stopping after the first foreignkey;
      the flag says whether one was met. */
  function ApplyAll(info: StructInfo, fieldname: string, ds: seq<Directive>): (StructInfo, bool)
    decreases |ds|
  {
    if ds == [] then (info, false)
    else if ds[0] == ForeignKey then (Apply(info, fieldname, ForeignKey), true)
    else ApplyAll(Apply(info, fieldname, ds[0]), fieldname, ds[1..])
  }

  /** The directive loop of ParseStructBlock: applies the items in order and
      stops at a foreignkey, which marks the field as external. */
  method ApplyDirectives(info: StructInfo, fieldname: string, gormInfos: seq<string>)
    returns (next: StructInfo, external: bool)
    ensures (next, external) == ApplyAll(info, fieldname, ParseItems(gormInfos))
  {
    next, external := info, false;
    ghost var ds := ParseItems(gormInfos);
    var i := 0;
    while i < |gormInfos|
      invariant 0 <= i <= |gormInfos|
      invariant ApplyAll(next, fieldname, ds[i..]) == ApplyAll(info, fieldname, ds)
      invariant !external
    {
      assert ds[i..][0] == ds[i] && ds[i..][1..] == ds[i + 1..];
      var foreign;
      next, foreign := ApplyItem(next, fieldname, gormInfos[i]);
      if foreign {
        external := true;
        break;
      }
      i := i + 1;
    }
  }

  /** The body of the directive loop for one item: whether it is a foreignkey,
      and the StructInfo after it. */
  method ApplyItem(info: StructInfo, fieldname: string, gi: string)
    returns (next: StructInfo, foreign: bool)
    ensures foreign <==> ParseDirective(gi) == ForeignKey
    ensures next == Apply(info, fieldname, ParseDirective(gi))
  {
    var trmd := ToLower(TrimSpace(gi));
    next, foreign := ApplyTrimmed(info, fieldname, trmd);
  }

  /** The branches of the directive loop's body, on the trimmed and
      lower-cased item. */
  method ApplyTrimmed(info: StructInfo, fieldname: string, trmd: string)
    returns (next: StructInfo, foreign: bool)
    ensures foreign <==> ReadItem(trmd) == ForeignKey
    ensures next == Apply(info, fieldname, ReadItem(trmd))
  {
    next, foreign := info, false;
    if trmd != [] {
      if Contains(trmd, ":") {
        ContainsChar(trmd, ":");
        SplitTwo(trmd, ':');
        var splts := Split(trmd, ':');
        var k, v := splts[0], splts[1];
        assert ReadItem(trmd) == KeyValue(k, v);
        if k == "uniqueindex" {
          if v !in next.uniqueIndices {
            next := next.(uniqueIndices := next.uniqueIndices[v := []]);
            MapOverwrite(info.uniqueIndices, v, [], [fieldname]);
          }
          next := next.(uniqueIndices := next.uniqueIndices[v := next.uniqueIndices[v] + [fieldname]]);
          assert next.uniqueIndices == info.uniqueIndices[v := Members(info.uniqueIndices, v) + [fieldname]];
        } else if k == "column" {
          next := next.(columnMap := next.columnMap[fieldname := v]);
        } else if k == "foreignkey" {
          foreign := true;
          next := next.(columnMap := next.columnMap - {fieldname});
        } else if k == "embeddedprefix" {
          // the source leaves embedded prefixes unhandled
        }
      } else {
        if trmd == "uniqueindex" {
          next := next.(uniqueIndices := next.uniqueIndices[fieldname := [fieldname]]);
        } else if trmd == "primarykey" {
          next := next.(primaryKeys := next.primaryKeys + [fieldname]);
        }
      }
    }
  }

  /** A second update of the same key replaces the first. */
  lemma MapOverwrite(m: map<string, seq<string>>, k: string, a: seq<string>, b: seq<string>)
    ensures m[k := a][k := b] == m[k := b]
  {
  }

  // ---------------------------------------------------------------------
  // Reference definitions of what the items of one tag body contribute

  /** Some item of `ds` is a foreignkey. */
  predicate HasForeignKey(ds: seq<Directive>) {
    exists j :: 0 <= j < |ds| && ds[j] == ForeignKey
  }

  /** One copy of `fieldname` per bare primarykey before the first foreignkey. */
  function PrimaryKeysOf(ds: seq<Directive>, fieldname: string): seq<string> {
    if ds == [] then []
    else
      match ds[0]
      case ForeignKey => []
      case PrimaryKey => [fieldname] + PrimaryKeysOf(ds[1..], fieldname)
      case _ => PrimaryKeysOf(ds[1..], fieldname)
  }

  /** The value of the last column item, if any. */
  function LastColumn(ds: seq<Directive>): Option<string> {
    if ds == [] then None
    else
      match LastColumn(ds[1..])
      case Some(c) => Some(c)
      case None => if ds[0].Column? then Some(ds[0].column) else None
  }

  /** One copy of `fieldname` per uniqueindex:<g> before the first foreignkey. */
  function GroupAdds(ds: seq<Directive>, fieldname: string, g: string): seq<string> {
    if ds == [] then []
    else
      var d := ds[0];
      if d == ForeignKey then []
      else if d == GroupIndex(g) then [fieldname] + GroupAdds(ds[1..], fieldname, g)
      else GroupAdds(ds[1..], fieldname, g)
  }

  /** The field is marked external exactly when one of its items is a
      foreignkey. */
  lemma {:induction false} ExternalIffForeignKey(info: StructInfo, fieldname: string, ds: seq<Directive>)
    ensures ApplyAll(info, fieldname, ds).1 <==> HasForeignKey(ds)
    decreases |ds|
  {
    if ds != [] {
      var d := ds[0];
      if d != ForeignKey {
        ExternalIffForeignKey(Apply(info, fieldname, d), fieldname, ds[1..]);
        if HasForeignKey(ds) {
          var j :| 0 <= j < |ds| && ds[j] == ForeignKey;
          assert ds[1..][j - 1] == ds[j];
        }
        if HasForeignKey(ds[1..]) {
          var j :| 0 <= j < |ds[1..]| && ds[1..][j] == ForeignKey;
          assert ds[j + 1] == ds[1..][j];
        }
      }
    }
  }

  /** A foreignkey at `j` ends the processing: the items before it keep their
      effect, the ones after it have none, and the field has no column entry. */
  lemma {:induction false} ForeignKeyStops(info: StructInfo, fieldname: string, ds: seq<Directive>, j: nat)
    requires j < |ds| && ds[j] == ForeignKey
    requires forall i :: 0 <= i < j ==> ds[i] != ForeignKey
    ensures !ApplyAll(info, fieldname, ds[..j]).1
    ensures ApplyAll(info, fieldname, ds) ==
      (Apply(ApplyAll(info, fieldname, ds[..j]).0, fieldname, ForeignKey), true)
    ensures fieldname !in ApplyAll(info, fieldname, ds).0.columnMap
    decreases j
  {
    if j > 0 {
      var d := ds[0];
      assert d != ForeignKey;
      assert ds[1..][j - 1] == ds[j];
      forall i | 0 <= i < j - 1 ensures ds[1..][i] != ForeignKey {
        assert ds[1..][i] == ds[i + 1];
      }
      ForeignKeyStops(Apply(info, fieldname, d), fieldname, ds[1..], j - 1);
      assert ds[..j][0] == ds[0];
      assert ds[..j][1..] == ds[1..][..j - 1];
    }
  }

  /** Bare primarykey items append the field name to PrimaryKeys, in order. */
  lemma {:induction false} ApplyAllPrimaryKeys(info: StructInfo, fieldname: string, ds: seq<Directive>)
    ensures ApplyAll(info, fieldname, ds).0.primaryKeys == info.primaryKeys + PrimaryKeysOf(ds, fieldname)
    decreases |ds|
  {
    if ds != [] {
      var d := ds[0];
      if d != ForeignKey {
        ApplyAllPrimaryKeys(Apply(info, fieldname, d), fieldname, ds[1..]);
      }
    }
  }

  /** The column-map rule for one field: a foreignkey removes the field's entry;
      otherwise the last column item sets it; without either it is left as it
      was. No other entry changes. */
  lemma {:induction false} ApplyAllColumns(info: StructInfo, fieldname: string, ds: seq<Directive>)
    ensures ApplyAll(info, fieldname, ds).0.columnMap ==
      if HasForeignKey(ds) then info.columnMap - {fieldname}
      else match LastColumn(ds)
        case Some(c) => info.columnMap[fieldname := c]
        case None => info.columnMap
    decreases |ds|
  {
    ExternalIffForeignKey(info, fieldname, ds);
    if ds != [] {
      var d := ds[0];
      if d == ForeignKey {
        assert HasForeignKey(ds);
      } else {
        var next := Apply(info, fieldname, d);
        ApplyAllColumns(next, fieldname, ds[1..]);
        ExternalIffForeignKey(next, fieldname, ds[1..]);
        if HasForeignKey(ds[1..]) {
          assert next.columnMap - {fieldname} == info.columnMap - {fieldname};
        }
      }
    }
  }

  /** uniqueindex:<g> items append the field name to index `g` in order,
      creating it when absent; for any index other than the field's own name
      nothing else touches it. */
  lemma {:induction false} ApplyAllGroups(info: StructInfo, fieldname: string, ds: seq<Directive>, g: string)
    requires g != fieldname
    ensures var out := ApplyAll(info, fieldname, ds).0;
      && Members(out.uniqueIndices, g) == Members(info.uniqueIndices, g) + GroupAdds(ds, fieldname, g)
      && (g in out.uniqueIndices <==> g in info.uniqueIndices || GroupAdds(ds, fieldname, g) != [])
    decreases |ds|
  {
    if ds != [] {
      var d := ds[0];
      if d != ForeignKey {
        var next := Apply(info, fieldname, d);
        GroupStep(info, fieldname, d, g);
        ApplyAllGroups(next, fieldname, ds[1..], g);
        assert GroupAdds(ds, fieldname, g) == (if d == GroupIndex(g) then [fieldname] else []) + GroupAdds(ds[1..], fieldname, g);
      }
    }
  }

  /** One item other than foreignkey adds the field to index `g` exactly when
      it is uniqueindex:<g>. */
  lemma GroupStep(info: StructInfo, fieldname: string, d: Directive, g: string)
    requires g != fieldname && d != ForeignKey
    ensures var ui := Apply(info, fieldname, d).uniqueIndices;
      && Members(ui, g) == Members(info.uniqueIndices, g) + (if d == GroupIndex(g) then [fieldname] else [])
      && (g in ui <==> g in info.uniqueIndices || d == GroupIndex(g))
  {
  }

  /** The items change only the keys named by `fieldname`: the field list and
      the struct name stay, and every key name is an old one or the field's. */
  lemma {:induction false} ApplyAllKeys(info: StructInfo, fieldname: string, ds: seq<Directive>, names: set<string>)
    requires fieldname in names
    ensures var out := ApplyAll(info, fieldname, ds).0;
      && out.fieldInfo == info.fieldInfo && out.structName == info.structName
      && (KeysWithin(info, names) ==> KeysWithin(out, names))
    decreases |ds|
  {
    if ds != [] {
      var d := ds[0];
      var next := Apply(info, fieldname, d);
      assert KeysWithin(info, names) ==> KeysWithin(next, names);
      if d != ForeignKey {
        ApplyAllKeys(next, fieldname, ds[1..], names);
      }
    }
  }

  /** The items before the first foreignkey: the ones whose effect on the
      indices counts. */
  function BeforeForeignKey(ds: seq<Directive>): (r: seq<Directive>)
    ensures ForeignKey !in r
  {
    if ds == [] || ds[0] == ForeignKey then [] else [ds[0]] + BeforeForeignKey(ds[1..])
  }

  /** A bare uniqueindex makes the field the only member of the index named
      after it, dropping members earlier fields added: with no
      uniqueindex:<fieldname> item before the first foreignkey, that is the
      final list. */
  lemma {:induction false} OwnIndexResets(info: StructInfo, fieldname: string, ds: seq<Directive>)
    requires GroupIndex(fieldname) !in BeforeForeignKey(ds)
    requires OwnIndex in BeforeForeignKey(ds) || (fieldname in info.uniqueIndices && info.uniqueIndices[fieldname] == [fieldname])
    ensures var ui := ApplyAll(info, fieldname, ds).0.uniqueIndices;
      fieldname in ui && ui[fieldname] == [fieldname]
    decreases |ds|
  {
    if ds != [] && ds[0] != ForeignKey {
      var next := Apply(info, fieldname, ds[0]);
      var rest := BeforeForeignKey(ds[1..]);
      assert BeforeForeignKey(ds) == [ds[0]] + rest;
      assert GroupIndex(fieldname) !in rest;
      assert (fieldname in next.uniqueIndices && next.uniqueIndices[fieldname] == [fieldname])
        || OwnIndex in rest;
      OwnIndexResets(next, fieldname, ds[1..]);
    }
  }

  /** Lower-casing leaves white space alone, and letters are not space. */
  lemma LowerSpace(c: char)
    ensures IsSpace(LowerChar(c)) <==> IsSpace(c)
  {
  }

  lemma {:induction false} LowerTrimLeft(s: string)
    ensures ToLower(TrimLeftSpace(s)) == TrimLeftSpace(ToLower(s))
  {
    if s != [] {
      LowerSpace(s[0]);
      assert ToLower(s)[1..] == ToLower(s[1..]);
      if IsSpace(s[0]) {
        LowerTrimLeft(s[1..]);
      }
    }
  }

  lemma {:induction false} LowerTrimRight(s: string)
    ensures ToLower(TrimRightSpace(s)) == TrimRightSpace(ToLower(s))
  {
    if s != [] {
      LowerSpace(s[|s| - 1]);
      assert ToLower(s)[..|s| - 1] == ToLower(s[..|s| - 1]);
      if IsSpace(s[|s| - 1]) {
        LowerTrimRight(s[..|s| - 1]);
      }
    }
  }

  /** Trimming and lower-casing can be done in either order. */
  lemma LowerTrim(s: string)
    ensures TrimSpace(ToLower(s)) == ToLower(TrimSpace(s))
  {
    LowerTrimRight(s);
    LowerTrimLeft(TrimRightSpace(s));
  }

  lemma LowerTwice(s: string)
    ensures ToLower(ToLower(s)) == ToLower(s)
  {
  }

  /** Items are read without regard to case: an item and its lower-cased
      form are the same directive. */
  lemma DirectiveCaseInsensitive(gi: string)
    ensures ParseDirective(ToLower(gi)) == ParseDirective(gi)
  {
    LowerTrim(gi);
    LowerTwice(TrimSpace(gi));
  }

  /** The first two ':'-segments of an item of at least three segments. */
  lemma KeyValueSplit(k: string, v: string, rest: string)
    requires ':' !in k && ':' !in v
    ensures var t := k + [':'] + v + [':'] + rest;
      Contains(t, ":") && |Split(t, ':')| >= 2 && Split(t, ':')[0] == k && Split(t, ':')[1] == v
  {
    var t := k + [':'] + v + [':'] + rest;
    assert t[|k|] == ':';
    ContainsChar(t, ":");
    SplitAtFirst(v, ':', rest);
    assert t == k + [':'] + (v + [':'] + rest);
    SplitAtFirst(k, ':', v + [':'] + rest);
  }

  /** A worked item: a uniqueindex value is the second ':'-segment, so a
      priority suffix is cut off at its ':'. */
  lemma GroupExample()
    ensures ReadItem("uniqueindex:ui_sg,priority:1") == GroupIndex("ui_sg,priority")
  {
    var k, v, rest := "uniqueindex", "ui_sg,priority", "1";
    assert "uniqueindex:ui_sg,priority:1" == k + [':'] + v + [':'] + rest;
    KeyValueSplit(k, v, rest);
  }
}
