/** The attributes of a tag as gumbo-parser/src/tokenizer.c collects them: a
    vector, and a lookup set beside it once it has grown. */
module TagAttributes {

  datatype Attribute = Attribute(name: string, value: string)

  datatype Lookup = NoLookup | Lookup(names: set<string>)

  // An attribute as written: a name and possibly a value.
  datatype Written = Bare(name: string) | Valued(name: string, value: string)

  const LOOKUP_MIN_SIZE: nat := 16

  ghost function Names(attrs: seq<Attribute>): (s: set<string>)
  {
    set i | 0 <= i < |attrs| :: attrs[i].name
  }

  // What an attribute comes to on its own.
  function Plain(w: Written): (a: Attribute)
  {
    Attribute(w.name, if w.Valued? then w.value else "")
  }

  predicate Occurs(given: seq<Written>, name: string)
  {
    exists i :: 0 <= i < |given| && given[i].name == name
  }

  // The attributes whose names have not occurred before, in order.
  function Firsts(given: seq<Written>): (r: seq<Attribute>)
  {
    if given == [] then []
    else
      var n := |given| - 1;
      Firsts(given[..n]) + if Occurs(given[..n], given[n].name) then [] else [Plain(given[n])]
  }

  // Cut at the limit; a negative one means no limit.
  function Cut(attrs: seq<Attribute>, limit: int): (r: seq<Attribute>)
  {
    if 0 <= limit < |attrs| then attrs[..limit] else attrs
  }

  lemma NamesAppend(attrs: seq<Attribute>, a: Attribute)
    ensures Names(attrs + [a]) == Names(attrs) + {a.name}
  {
    var r := attrs + [a];
    forall name | name in Names(attrs) + {a.name} ensures name in Names(r) {
      if name == a.name {
        assert r[|attrs|].name == name;
      } else {
        var i :| 0 <= i < |attrs| && attrs[i].name == name;
        assert r[i].name == name;
      }
    }
  }

  lemma {:induction false} FirstsNames(given: seq<Written>)
    ensures forall name :: name in Names(Firsts(given)) <==> Occurs(given, name)
    ensures forall i, j :: 0 <= i < j < |Firsts(given)| ==> Firsts(given)[i].name != Firsts(given)[j].name
  {
    if given != [] {
      var n := |given| - 1;
      var init, last := given[..n], given[n];
      FirstsNames(init);
      assert given == init + [last];
      var f := Firsts(init);
      if !Occurs(init, last.name) {
        forall i | 0 <= i < |f| ensures f[i].name != last.name {
          assert f[i].name in Names(f);
        }
        NamesAppend(f, Plain(last));
      } else {
        assert f + [] == f;
      }
    }
  }

  class TagState {
    const maxAttributes: int
    var attributes: seq<Attribute>
    var lookup: Lookup                 // _attributes_lookup
    var dropNextValue: bool            // _drop_next_attr_value
    var tooMany: bool                  // status GUMBO_STATUS_TOO_MANY_ATTRIBUTES

    constructor (maxAttributes: int)
      ensures this.maxAttributes == maxAttributes && Holds([]) && !tooMany
    {
      this.maxAttributes := maxAttributes;
      attributes, lookup, dropNextValue, tooMany := [], NoLookup, false, false;
    }

    // The lookup set, if there is one, agrees with the vector.
    ghost predicate Valid()
      reads this
    {
      && (lookup.Lookup? ==> lookup.names == Names(attributes))
      && (lookup == NoLookup ==> |attributes| <= LOOKUP_MIN_SIZE)
    }

    // The state after the given attributes.
    ghost predicate Holds(given: seq<Written>)
      reads this
    {
      Valid() && attributes == Cut(Firsts(given), maxAttributes)
    }

    // The limit is already reached by what was given.
    ghost predicate Full(given: seq<Written>)
      reads this
    {
      0 <= maxAttributes <= |Firsts(given)|
    }

    // finish_attribute_name
    method FinishName(name: string, ghost given: seq<Written>)
      requires Holds(given)
      modifies this
      ensures Holds(given + [Bare(name)])
      ensures dropNextValue <==> Full(given) || Occurs(given, name)
      ensures tooMany == (old(tooMany) || Full(given))
    {
      ghost var given' := given + [Bare(name)];
      assert given'[..|given|] == given;
      FirstsNames(given);
      if maxAttributes >= 0 && |attributes| >= maxAttributes {
        tooMany := true;
        dropNextValue := true;
        return;
      }
      if |attributes| >= LOOKUP_MIN_SIZE && lookup == NoLookup {
        BuildLookup();
      }
      dropNextValue := false;
      var found := Contains(name);
      if found {
        dropNextValue := true;
        return;
      }
      ghost var before := attributes;
      attributes := attributes + [Attribute(name, "")];
      NamesAppend(before, Attribute(name, ""));
      if lookup != NoLookup {
        lookup := Lookup(lookup.names + {name});
      }
    }

    method BuildLookup()
      requires lookup == NoLookup
      modifies this`lookup
      ensures lookup == Lookup(Names(attributes))
    {
      var names: set<string>, i := {}, 0;
      while i < |attributes|
        invariant 0 <= i <= |attributes| && names == Names(attributes[..i])
      {
        names := names + {attributes[i].name};
        assert attributes[..i + 1] == attributes[..i] + [attributes[i]];
        NamesAppend(attributes[..i], attributes[i]);
        i := i + 1;
      }
      assert attributes[..i] == attributes;
      lookup := Lookup(names);
    }

    // Linear search, or a query of the set if there is one.
    method Contains(name: string) returns (found: bool)
      requires Valid()
      ensures found <==> name in Names(attributes)
    {
      if lookup != NoLookup {
        return name in lookup.names;
      }
      var i := 0;
      while i < |attributes|
        invariant 0 <= i <= |attributes| && forall j :: 0 <= j < i ==> attributes[j].name != name
      {
        if attributes[i].name == name {
          return true;
        }
        i := i + 1;
      }
      return false;
    }

    // finish_attribute_value, for the name finished last.
    method FinishValue(value: string, ghost name: string, ghost given: seq<Written>)
      requires Holds(given + [Bare(name)]) && (dropNextValue <==> Full(given) || Occurs(given, name))
      modifies this
      ensures Holds(given + [Valued(name, value)]) && tooMany == old(tooMany)
    {
      assert (given + [Bare(name)])[..|given|] == given;
      assert (given + [Valued(name, value)])[..|given|] == given;
      if dropNextValue {
        dropNextValue := false;
        return;
      }
      var last := |attributes| - 1;
      ghost var before := attributes;
      attributes := attributes[last := attributes[last].(value := value)];
      assert Names(attributes) == Names(before) by {
        forall i | 0 <= i < |before| ensures attributes[i].name == before[i].name {}
      }
    }
  }

  // All attributes of a tag, one after the other.
  method Collect(given: seq<Written>, maxAttributes: int) returns (attributes: seq<Attribute>, tooMany: bool)
    ensures attributes == Cut(Firsts(given), maxAttributes)
    ensures tooMany <==> 0 <= maxAttributes && given != [] && |Firsts(given[..|given| - 1])| >= maxAttributes
  {
    hide Firsts, Cut, Occurs;
    var tag := new TagState(maxAttributes);
    var i := 0;
    while i < |given|
      invariant 0 <= i <= |given| && fresh(tag) && tag.maxAttributes == maxAttributes && tag.Holds(given[..i])
      invariant tag.tooMany <==> i > 0 && 0 <= maxAttributes <= |Firsts(given[..i - 1])|
    {
      var w := given[i];
      assert given[..i + 1] == given[..i] + [w];
      FirstsGrow(given, i);
      tag.FinishName(w.name, given[..i]);
      if w.Valued? {
        tag.FinishValue(w.value, w.name, given[..i]);
      }
      i := i + 1;
    }
    assert given[..i] == given;
    return tag.attributes, tag.tooMany;
  }

  lemma FirstsGrow(given: seq<Written>, i: nat)
    requires i <= |given|
    ensures i > 0 ==> |Firsts(given[..i - 1])| <= |Firsts(given[..i])|
  {
    if i > 0 {
      assert given[..i][..i - 1] == given[..i - 1];
    }
  }
}
