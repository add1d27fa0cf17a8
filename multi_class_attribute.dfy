/** The registry of a device class's attributes and the attachment of the class-level
    attribute properties read from the Tango database. The database answer and the
    "database in use" switch are parameters. */
module ClassAttributes {
  import opened Results

  /** One class-level attribute property: a name and its value. */
  datatype AttrProperty = AttrProperty(name: string, value: string)

  /** One property of a database reply. */
  datatype DbDatum = DbDatum(name: string, value: string)

  /** The database's answer for one attribute: its properties, in the database's order. */
  datatype DbAttribute = DbAttribute(name: string, data: seq<DbDatum>)

  /** An attribute object with the state this registry uses: its name, fixed at creation,
      and the class properties it is given. */
  class Attr {
    const name: string
    var classProperties: seq<AttrProperty>

    constructor (name: string)
      ensures this.name == name && classProperties == []
    {
      this.name := name;
      classProperties := [];
    }
  }

  /** The property list built from one database answer: its names paired with its values,
      in order. */
  function PropertyList(d: DbAttribute): seq<AttrProperty>
  {
    seq(|d.data|, p requires 0 <= p < |d.data| => AttrProperty(d.data[p].name, d.data[p].value))
  }

  /** The position of the first attribute called name, or -1 when there is none. */
  function NameIndex(attrs: seq<Attr>, name: string): (k: int)
    ensures -1 <= k < |attrs|
    ensures k >= 0 ==> attrs[k].name == name
    ensures forall j :: 0 <= j < |attrs| && (k < 0 || j < k) ==> attrs[j].name != name
    decreases |attrs|
  {
    if |attrs| == 0 then -1
    else if attrs[0].name == name then 0
    else var k := NameIndex(attrs[1..], name); if k < 0 then -1 else k + 1
  }

  /** How many attributes init_class_attribute handles from position base on: all of them
      when base is 0, otherwise only the one at base. */
  function SelectedCount(base: int, size: nat): nat
  {
    if base == 0 then size else 1
  }

  /** The handled positions base .. base + nb - 1 all lie in a list of the given size. */
  predicate InRange(base: int, size: nat)
  {
    0 <= base && base + SelectedCount(base, size) <= size
  }

  /** The names init_class_attribute asks the database about. */
  function SelectedNames(attrs: seq<Attr>, base: int): seq<string>
    requires InRange(base, |attrs|)
  {
    seq(SelectedCount(base, |attrs|), i requires 0 <= i < SelectedCount(base, |attrs|) => attrs[base + i].name)
  }

  /** The selection lies inside the list exactly when base is 0 or a position after the first;
      with base 0 the database is asked about every attribute in list order, otherwise about
      the one at base alone. */
  lemma SelectionCases(attrs: seq<Attr>, base: int)
    ensures InRange(base, |attrs|) <==> base == 0 || 0 < base < |attrs|
    ensures base == 0 ==> |SelectedNames(attrs, base)| == |attrs|
                          && forall i :: 0 <= i < |attrs| ==> SelectedNames(attrs, base)[i] == attrs[i].name
    ensures 0 < base < |attrs| ==> SelectedNames(attrs, base) == [attrs[base].name]
  {
  }

  /** The class properties of attribute a after the first m handled positions were given their
      reply's property list, when a held the list before: the last assignment to a wins, since
      the same attribute object may sit at several positions. */
  function Assigned(attrs: seq<Attr>, base: int, reply: seq<DbAttribute>, m: nat, a: Attr,
                    before: seq<AttrProperty>): seq<AttrProperty>
    requires 0 <= base && base + m <= |attrs| && m <= |reply|
    decreases m
  {
    if m == 0 then before
    else if attrs[base + m - 1] == a then PropertyList(reply[m - 1])
    else Assigned(attrs, base, reply, m - 1, a, before)
  }

  /** An attribute gets the properties of the last handled position it sits at. */
  lemma {:induction false} AssignedLastWins(attrs: seq<Attr>, base: int, reply: seq<DbAttribute>, m: nat,
                                            i: nat, before: seq<AttrProperty>)
    requires 0 <= base && base + m <= |attrs| && m <= |reply|
    requires i < m
    requires forall k :: base + i < k < base + m ==> attrs[k] != attrs[base + i]
    ensures Assigned(attrs, base, reply, m, attrs[base + i], before) == PropertyList(reply[i])
    decreases m
  {
    if m - 1 != i {
      AssignedLastWins(attrs, base, reply, m - 1, i, before);
    }
  }

  /** When the attributes are distinct objects, the one at position base + i gets exactly the
      properties of the i-th reply. */
  lemma AssignedDistinct(attrs: seq<Attr>, base: int, reply: seq<DbAttribute>, m: nat, i: nat,
                         before: seq<AttrProperty>)
    requires 0 <= base && base + m <= |attrs| && m <= |reply|
    requires i < m
    requires forall j, k :: 0 <= j < k < |attrs| ==> attrs[j] != attrs[k]
    ensures Assigned(attrs, base, reply, m, attrs[base + i], before) == PropertyList(reply[i])
  {
    AssignedLastWins(attrs, base, reply, m, i, before);
  }

  /** An attribute at no handled position keeps the properties it had. */
  lemma {:induction false} AssignedOutside(attrs: seq<Attr>, base: int, reply: seq<DbAttribute>, m: nat,
                                           a: Attr, before: seq<AttrProperty>)
    requires 0 <= base && base + m <= |attrs| && m <= |reply|
    requires a !in attrs[base..base + m]
    ensures Assigned(attrs, base, reply, m, a, before) == before
    decreases m
  {
    if m > 0 {
      assert attrs[base + m - 1] in attrs[base..base + m];
      assert attrs[base..base + m - 1] <= attrs[base..base + m];
      AssignedOutside(attrs, base, reply, m - 1, a, before);
    }
  }

  /** The registry: the attributes of one device class, in the order they were added. */
  class MultiClassAttribute {
    var attrList: seq<Attr>

    /** A new registry holds no attribute. */
    constructor ()
      ensures attrList == []
    {
      attrList := [];
    }

    /** get_attr_list hands out the list itself: every attribute in it is what get_attr finds
        under its name, unless an earlier one has the same name. */
    function GetAttrList(): (attrs: seq<Attr>)
      reads this
      ensures forall i :: 0 <= i < |attrs| ==> 0 <= NameIndex(attrList, attrs[i].name) <= i
    {
      attrList
    }

    /** Callers register an attribute by appending it to the list get_attr_list returned. */
    method AddAttr(a: Attr)
      modifies this
      ensures attrList == old(attrList) + [a]
    {
      attrList := attrList + [a];
    }

    /** get_attr: the first attribute in list order with the given name, or API_AttrWrongDefined
        when there is none. The registry is left as it is. */
    method GetAttr(attrName: string) returns (r: Result<Attr>)
      ensures r.Success? <==> exists i :: 0 <= i < |attrList| && attrList[i].name == attrName
      ensures r.Failure? ==> r.error == AttrWrongDefined(attrName)
      ensures r.Success? ==> r.value.name == attrName && r.value == attrList[NameIndex(attrList, attrName)]
    {
      var i := 0;
      var nbAttr := |attrList|;
      while i < nbAttr
        invariant 0 <= i <= nbAttr
        invariant forall j :: 0 <= j < i ==> attrList[j].name != attrName
      {
        if attrList[i].name == attrName {
          break;
        }
        i := i + 1;
      }
      if i == nbAttr {
        return Failure(AttrWrongDefined(attrName));
      }
      assert NameIndex(attrList, attrName) == i;
      r := Success(attrList[i]);
    }

    /** init_class_attribute: select the attributes from position base on (all of them when base
        is 0, else the one at base), ask the database for their class properties and give each
        selected attribute the property list of its reply, in order. A selected position outside
        the list fails with no change, whether the database is in use or not (the trace loop at
        the end reads the same positions); a database failure is passed on with no change; a
        reply with fewer entries than selected attributes fails once the earlier attributes were
        updated. */
    method InitClassAttribute(className: string, base: int, useDb: bool,
                              db: (string, seq<string>) -> Result<seq<DbAttribute>>) returns (r: Result<()>)
      modifies set a | a in attrList
      ensures !InRange(base, |attrList|) ==>
                r == Failure(IndexOutOfBounds) && forall a :: a in attrList ==> a.classProperties == old(a.classProperties)
      ensures InRange(base, |attrList|) && (SelectedCount(base, |attrList|) == 0 || !useDb) ==>
                r == Success(()) && forall a :: a in attrList ==> a.classProperties == old(a.classProperties)
      ensures InRange(base, |attrList|) && SelectedCount(base, |attrList|) != 0 && useDb
              && db(className, SelectedNames(attrList, base)).Failure? ==>
                r == Failure(db(className, SelectedNames(attrList, base)).error)
                && forall a :: a in attrList ==> a.classProperties == old(a.classProperties)
      ensures InRange(base, |attrList|) && SelectedCount(base, |attrList|) != 0 && useDb
              && db(className, SelectedNames(attrList, base)).Success? ==>
                var reply := db(className, SelectedNames(attrList, base)).value;
                var nb := SelectedCount(base, |attrList|);
                var m := if |reply| < nb then |reply| else nb;
                && r == (if |reply| < nb then Failure(IndexOutOfBounds) else Success(()))
                && forall a :: a in attrList ==>
                     a.classProperties == Assigned(attrList, base, reply, m, a, old(a.classProperties))
    {
      var nbAttr := if base == 0 then |attrList| else 1;
      if nbAttr != 0 && useDb {
        // The names of the selected attributes.
        var attNames: seq<string> := [];
        var i := 0;
        while i < nbAttr
          invariant 0 <= i <= nbAttr
          invariant i > 0 ==> 0 <= base && base + i <= |attrList|
          invariant |attNames| == i && forall j :: 0 <= j < i ==> attNames[j] == attrList[base + j].name
        {
          if !(0 <= base + i < |attrList|) {
            return Failure(IndexOutOfBounds);
          }
          attNames := attNames + [attrList[base + i].name];
          i := i + 1;
        }
        assert InRange(base, |attrList|) && attNames == SelectedNames(attrList, base);
        var dbAttr :- db(className, attNames);
        // One property list per selected attribute, from its reply.
        i := 0;
        while i < |attNames|
          invariant 0 <= i <= |attNames| && i <= |dbAttr|
          invariant forall a :: a in attrList ==>
                      a.classProperties == Assigned(attrList, base, dbAttr, i, a,
                                                    old(a.classProperties))
        {
          if i >= |dbAttr| {
            return Failure(IndexOutOfBounds);
          }
          var attr := attrList[i + base];
          var propNames := seq(|dbAttr[i].data|, p requires 0 <= p < |dbAttr[i].data| => dbAttr[i].data[p].name);
          var propList: seq<AttrProperty> := [];
          var p := 0;
          while p < |propNames|
            invariant 0 <= p <= |propNames|
            invariant propList == PropertyList(dbAttr[i])[..p]
          {
            propList := propList + [AttrProperty(propNames[p], dbAttr[i].data[p].value)];
            p := p + 1;
          }
          assert propList == PropertyList(dbAttr[i]);
          attr.classProperties := propList;
          i := i + 1;
        }
      }
      // The trace loop reads every selected position.
      var i := 0;
      while i < nbAttr
        invariant 0 <= i <= nbAttr
        invariant i > 0 ==> 0 <= base && base + i <= |attrList|
      {
        if !(0 <= base + i < |attrList|) {
          return Failure(IndexOutOfBounds);
        }
        i := i + 1;
      }
      r := Success(());
    }
  }
}
