/**
  An assumed rendering of the names that `core::any::type_name` gives the two
  markers. The model assumes that a marker declared in a free function, or in
  a method of an inherent `impl`, is named by its path segments joined by
  `::`: the module path, then the enclosing items, then the marker's own name.
  How each segment shows generic parameters (`GenericType<_>` for the local
  `struct Here`, `GenericType<u8>` and `generic_method<bool>` for the closure)
  is left inside the segment strings. Under this assumption both macros give
  back exactly the enclosing function's path. A method of a trait `impl` is
  rendered differently, as `<Type as Trait>::method`; `TraitImplMethodName`
  shows what the macros return there.
 */
module TypeNames {
  import opened RustStr
  import opened FnName

  /** The last segment of `type_name::<Here>()`. */
  const HereSegment: Str := "Here"

  /** The last segment of the closure's type name. */
  const ClosureSegment: Str := "{{closure}}"

  /** Every segment is itself a well-formed string. */
  predicate WellFormedSegments(segments: seq<Str>) {
    forall i :: 0 <= i < |segments| ==> StartsOnBoundary(segments[i])
  }

  /** Path segments joined by `::`; a path of one segment is rendered as that
      segment alone. */
  function Join(segments: seq<Str>): (r: Str)
    ensures |segments| == 1 ==> r == segments[0]
  {
    if |segments| <= 1 then (if segments == [] then [] else segments[0])
    else segments[0] + Separator + Join(segments[1..])
  }

  /** A rendering of well-formed segments is itself well-formed at its start:
      it begins with the first segment, or with the separator when that
      segment is empty. */
  lemma JoinStartsOnBoundary(segments: seq<Str>)
    requires WellFormedSegments(segments)
    ensures StartsOnBoundary(Join(segments))
  {
    if |segments| > 1 {
      var r := Join(segments);
      assert r == segments[0] + Separator + Join(segments[1..]);
      if segments[0] == [] {
        assert r[0] == ':';
      } else {
        assert StartsOnBoundary(segments[0]);
        assert r[0] == segments[0][0];
      }
    } else if |segments| == 1 {
      assert StartsOnBoundary(segments[0]);
    }
  }

  /** Joining two non-empty paths puts one separator between their renderings. */
  lemma {:induction false} JoinAppend(front: seq<Str>, back: seq<Str>)
    requires front != [] && back != []
    ensures Join(front + back) == Join(front) + Separator + Join(back)
  {
    if |front| == 1 {
      assert (front + back)[1..] == back;
    } else {
      assert (front + back)[1..] == front[1..] + back;
      JoinAppend(front[1..], back);
    }
  }

  /** The name of a marker whose last segment is `marker`, declared in the
      function `enclosing` of the module `modulePath`. */
  function MarkerName(modulePath: seq<Str>, enclosing: seq<Str>, marker: Str): Str
  {
    Join(modulePath + enclosing + [marker])
  }

  /** A marker's name is always `PREFIX ++ enclosing path ++ "::" ++ marker`:
      the shape both macros rely on. */
  lemma MarkerNameShape(modulePath: seq<Str>, enclosing: seq<Str>, marker: Str)
    requires modulePath != [] && enclosing != []
    ensures MarkerName(modulePath, enclosing, marker)
         == Prefix(Join(modulePath)) + Join(enclosing) + (Separator + marker)
  {
    var m, e := Join(modulePath), Join(enclosing);
    assert modulePath + enclosing + [marker] == modulePath + (enclosing + [marker]);
    JoinAppend(modulePath, enclosing + [marker]);
    JoinAppend(enclosing, [marker]);
    assert Join(enclosing + [marker]) == e + Separator + marker;
    assert m + Separator + (e + Separator + marker) == Prefix(m) + e + (Separator + marker);
  }

  /** Under this rendering, and with every segment a well-formed string,
      `uninstantiated!()` gives the enclosing path, with every nested scope in
      it. */
  lemma UninstantiatedRecoversPath(profile: Profile, modulePath: seq<Str>, enclosing: seq<Str>)
    requires modulePath != [] && enclosing != [] && WellFormedSegments(enclosing)
    requires IsStr(Prefix(Join(modulePath))) && IsStr(MarkerName(modulePath, enclosing, HereSegment))
    ensures Uninstantiated(profile, Join(modulePath), MarkerName(modulePath, enclosing, HereSegment))
         == Value(Join(enclosing))
  {
    MarkerNameShape(modulePath, enclosing, HereSegment);
    JoinStartsOnBoundary(enclosing);
    TrimRoundTrip(profile, Prefix(Join(modulePath)), Join(enclosing), HereSuffix);
  }

  /** Under this rendering, and with every segment a well-formed string,
      `instantiated!()` gives the enclosing path, with every nested scope in
      it. */
  lemma InstantiatedRecoversPath(profile: Profile, modulePath: seq<Str>, enclosing: seq<Str>)
    requires modulePath != [] && enclosing != [] && WellFormedSegments(enclosing)
    requires IsStr(Prefix(Join(modulePath))) && IsStr(MarkerName(modulePath, enclosing, ClosureSegment))
    ensures Instantiated(profile, Join(modulePath), MarkerName(modulePath, enclosing, ClosureSegment))
         == Value(Join(enclosing))
  {
    MarkerNameShape(modulePath, enclosing, ClosureSegment);
    JoinStartsOnBoundary(enclosing);
    TrimRoundTrip(profile, Prefix(Join(modulePath)), Join(enclosing), ClosureSuffix);
  }

  /** For a plain function `f` directly in module `m`, both macros give `f`
      alone: the module path is cut off with `PREFIX`. */
  lemma TopLevelFunctionName(profile: Profile, modulePath: seq<Str>, f: Str)
    requires modulePath != [] && StartsOnBoundary(f)
    requires IsStr(Prefix(Join(modulePath)))
    requires IsStr(MarkerName(modulePath, [f], HereSegment)) && IsStr(MarkerName(modulePath, [f], ClosureSegment))
    ensures Uninstantiated(profile, Join(modulePath), MarkerName(modulePath, [f], HereSegment)) == Value(f)
    ensures Instantiated(profile, Join(modulePath), MarkerName(modulePath, [f], ClosureSegment)) == Value(f)
  {
    assert WellFormedSegments([f]);
    UninstantiatedRecoversPath(profile, modulePath, [f]);
    InstantiatedRecoversPath(profile, modulePath, [f]);
  }

  /** Inside a method of `impl Trait for Type`, the marker's name begins with
      `<`, the qualified self type, ` as `, the trait path and `>::`, not with
      the module path. The cut is positional, so both macros still remove
      `|PREFIX|` bytes: the `<`, the module path and one of the two colons
      after it. What is left starts with `:` and ends with the method name. */
  lemma TraitImplMethodName(profile: Profile, modulePath: Str, selfType: Str, traitPath: Str, methodName: Str)
    requires |modulePath| + |selfType| + |traitPath| + |methodName| <= IsizeMax - 64
    ensures Uninstantiated(profile, modulePath,
              "<" + modulePath + "::" + selfType + " as " + traitPath + ">::" + methodName + "::Here")
         == Value(":" + selfType + " as " + traitPath + ">::" + methodName)
    ensures Instantiated(profile, modulePath,
              "<" + modulePath + "::" + selfType + " as " + traitPath + ">::" + methodName + "::{{closure}}")
         == Value(":" + selfType + " as " + traitPath + ">::" + methodName)
  {
    var front: Str := "<" + modulePath + ":";
    var middle: Str := ":" + selfType + " as " + traitPath + ">::" + methodName;
    assert "<" + modulePath + "::" + selfType + " as " + traitPath + ">::" + methodName == front + middle;
    var hereName := "<" + modulePath + "::" + selfType + " as " + traitPath + ">::" + methodName + "::Here";
    var closureName := "<" + modulePath + "::" + selfType + " as " + traitPath + ">::" + methodName + "::{{closure}}";
    assert hereName == front + middle + HereSuffix;
    assert closureName == front + middle + ClosureSuffix;
    TrimRoundTrip(profile, front, middle, HereSuffix);
    TrimIsPositional(profile, hereName, front, Prefix(modulePath), HereSuffix, HereSuffix);
    TrimRoundTrip(profile, front, middle, ClosureSuffix);
    TrimIsPositional(profile, closureName, front, Prefix(modulePath), ClosureSuffix, ClosureSuffix);
  }
}
