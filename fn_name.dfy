/**
  The trim shared by the `uninstantiated!` and `instantiated!` macros of
  src/lib.rs. Each macro asks the compiler for the fully qualified type name
  of a marker declared at the call site, then cuts `PREFIX` (the module path
  and `::`) off the front and `SUFFIX` (the marker's own last segment) off the
  back. The cut is purely positional: only the lengths of `PREFIX` and
  `SUFFIX` are used, never their contents.
 */
module FnName {
  import opened RustStr

  /** The separator between path segments in a rendered type name. */
  const Separator: Str := "::"

  /** `SUFFIX` of `uninstantiated!`: the marker is the local `struct Here`. */
  const HereSuffix: Str := "::Here"

  /** `SUFFIX` of `instantiated!`: the marker is a closure, which the compiler
      names `{{closure}}`. */
  const ClosureSuffix: Str := "::{{closure}}"

  /** `PREFIX` of both macros: `concat!(module_path!(), "::")`. */
  function Prefix(modulePath: Str): (p: Str)
    ensures |p| == |modulePath| + |Separator|
    ensures p[..|modulePath|] == modulePath && p[|modulePath|..] == Separator
  {
    modulePath + Separator
  }

  /** `&here[prefix.len()..(here.len() - suffix.len())]`. It returns a value
      exactly when the two lengths fit inside `here` and both cut points fall
      on character boundaries, and the value is what lies between the first
      `|prefix|` and the last `|suffix|` bytes. */
  function Trim(profile: Profile, here: Str, prefix: Str, suffix: Str): (r: Outcome<Str>)
    requires IsStr(here) && IsStr(prefix) && IsStr(suffix)
    ensures r.Value? <==>
      && |prefix| + |suffix| <= |here|
      && IsCharBoundary(here, |prefix|)
      && IsCharBoundary(here, |here| - |suffix|)
    ensures r.Value? ==> |r.value| == |here| - |prefix| - |suffix|
    ensures r.Value? ==> here == here[..|prefix|] + r.value + here[|here| - |suffix|..]
    ensures |prefix| + |suffix| <= |here| && r.Panicked? ==>
      r.cause == NotCharBoundary(if IsCharBoundary(here, |prefix|) then |here| - |suffix| else |prefix|)
  {
    match Sub(profile, |here|, |suffix|)
    case Panicked(cause) => Panicked(cause)
    case Value(end) =>
      var r := Slice(here, |prefix|, end);
      assert r.Value? ==> here == here[..|prefix|] + r.value + here[|here| - |suffix|..] by {
        if r.Value? {
          assert r.value == here[|prefix|..end];
        }
      }
      r
  }

  /** `uninstantiated!()`: `hereName` is what `core::any::type_name::<Here>()`
      returns at the call site, `modulePath` what `module_path!()` expands to. */
  function Uninstantiated(profile: Profile, modulePath: Str, hereName: Str): (r: Outcome<Str>)
    requires IsStr(Prefix(modulePath)) && IsStr(hereName)
    ensures r.Value? <==>
      && |modulePath| + |Separator| + |HereSuffix| <= |hereName|
      && IsCharBoundary(hereName, |modulePath| + |Separator|)
      && IsCharBoundary(hereName, |hereName| - |HereSuffix|)
    ensures r.Value? ==> |r.value| == |hereName| - |modulePath| - |Separator| - |HereSuffix|
    ensures r.Value? ==> r.value == hereName[|modulePath| + |Separator| .. |hereName| - |HereSuffix|]
  {
    Trim(profile, hereName, Prefix(modulePath), HereSuffix)
  }

  /** `instantiated!()`: `closureName` is what `type_name_of_val(&||{})`
      returns at the call site, `modulePath` what `module_path!()` expands to. */
  function Instantiated(profile: Profile, modulePath: Str, closureName: Str): (r: Outcome<Str>)
    requires IsStr(Prefix(modulePath)) && IsStr(closureName)
    ensures r.Value? <==>
      && |modulePath| + |Separator| + |ClosureSuffix| <= |closureName|
      && IsCharBoundary(closureName, |modulePath| + |Separator|)
      && IsCharBoundary(closureName, |closureName| - |ClosureSuffix|)
    ensures r.Value? ==> |r.value| == |closureName| - |modulePath| - |Separator| - |ClosureSuffix|
    ensures r.Value? ==> r.value == closureName[|modulePath| + |Separator| .. |closureName| - |ClosureSuffix|]
  {
    Trim(profile, closureName, Prefix(modulePath), ClosureSuffix)
  }

  /** When the name really is `prefix ++ middle ++ suffix`, with `middle` and
      `suffix` well-formed strings, the trim gives back `middle`, under either
      overflow profile. */
  lemma TrimRoundTrip(profile: Profile, prefix: Str, middle: Str, suffix: Str)
    requires IsStr(prefix + middle + suffix) && IsStr(prefix) && IsStr(suffix)
    requires StartsOnBoundary(middle) && StartsOnBoundary(suffix)
    ensures Trim(profile, prefix + middle + suffix, prefix, suffix) == Value(middle)
  {
    var here := prefix + middle + suffix;
    if middle != [] {
      assert here[|prefix|] == middle[0];
    } else if suffix != [] {
      assert here[|prefix|] == suffix[0];
    }
    if suffix != [] {
      assert here[|here| - |suffix|] == suffix[0];
    }
    assert here[|prefix|..|here| - |suffix|] == middle;
  }

  /** The trim reads only the lengths of `prefix` and `suffix`: two constants
      of the same lengths give the same result on every name. */
  lemma TrimIsPositional(profile: Profile, here: Str, prefix: Str, prefix': Str, suffix: Str, suffix': Str)
    requires IsStr(here) && IsStr(prefix) && IsStr(prefix') && IsStr(suffix) && IsStr(suffix')
    requires |prefix| == |prefix'| && |suffix| == |suffix'|
    ensures Trim(profile, here, prefix, suffix) == Trim(profile, here, prefix', suffix')
  {
  }

  /** A `SUFFIX` shorter than the name's real last segment `actual` goes
      unnoticed: the result keeps the unremoved front of `actual`. Only a cut
      that splits a character of `actual` panics. */
  lemma TrimUnderTrims(profile: Profile, prefix: Str, middle: Str, actual: Str, suffix: Str)
    requires IsStr(prefix + middle + actual) && IsStr(prefix) && IsStr(suffix)
    requires StartsOnBoundary(middle) && StartsOnBoundary(actual)
    requires |suffix| <= |actual|
    ensures Trim(profile, prefix + middle + actual, prefix, suffix)
         == if StartsOnBoundary(actual[|actual| - |suffix|..])
            then Value(middle + actual[..|actual| - |suffix|])
            else Panicked(NotCharBoundary(|prefix| + |middle| + |actual| - |suffix|))
  {
    var j := |actual| - |suffix|;
    var here := prefix + middle + actual;
    if StartsOnBoundary(actual[j..]) {
      assert StartsOnBoundary(middle + actual[..j]) by {
        if middle == [] && j > 0 {
          assert (middle + actual[..j])[0] == actual[0];
        }
      }
      assert here == prefix + (middle + actual[..j]) + actual[j..];
      TrimRoundTrip(profile, prefix, middle + actual[..j], actual[j..]);
    } else {
      if middle != [] {
        assert here[|prefix|] == middle[0];
      } else {
        assert here[|prefix|] == actual[0];
      }
      assert here[|here| - |suffix|] == actual[j];
    }
  }

  /** A `SUFFIX` longer than the name's real last segment `actual` also goes
      unnoticed as long as the name is long enough: the result loses the last
      `|suffix| - |actual|` bytes of `middle`, or the expression panics when
      that cut splits a character of `middle`. */
  lemma TrimOverTrims(profile: Profile, prefix: Str, middle: Str, actual: Str, suffix: Str)
    requires IsStr(prefix + middle + actual) && IsStr(prefix) && IsStr(suffix)
    requires StartsOnBoundary(middle)
    requires |actual| < |suffix| <= |middle| + |actual|
    ensures Trim(profile, prefix + middle + actual, prefix, suffix)
         == if StartsOnBoundary(middle[|middle| + |actual| - |suffix|..])
            then Value(middle[..|middle| + |actual| - |suffix|])
            else Panicked(NotCharBoundary(|prefix| + |middle| + |actual| - |suffix|))
  {
    var k := |middle| + |actual| - |suffix|;
    var here := prefix + middle + actual;
    if StartsOnBoundary(middle[k..]) {
      assert here == prefix + middle[..k] + (middle[k..] + actual);
      TrimRoundTrip(profile, prefix, middle[..k], middle[k..] + actual);
    } else {
      assert here[|prefix|] == middle[0];
      assert here[|prefix| + k] == middle[k];
    }
  }

  /** When the lengths do not fit, the expression panics. Under `Checked` a
      name shorter than `suffix` fails in the subtraction. Under `Wrapping`
      the subtraction wraps to an end index past the name, and the slice
      reports the begin index if that is past the name too, else the wrapped
      end index. A name that passes the subtraction but is too short for
      `prefix` fails in the slice. */
  lemma TrimPanics(profile: Profile, here: Str, prefix: Str, suffix: Str)
    requires IsStr(here) && IsStr(prefix) && IsStr(suffix)
    requires |here| < |prefix| + |suffix|
    ensures |here| < |suffix| && profile == Checked ==>
      Trim(profile, here, prefix, suffix) == Panicked(SubtractOverflow)
    ensures |here| < |suffix| && profile == Wrapping ==>
      Trim(profile, here, prefix, suffix)
        == Panicked(IndexOutOfBounds(if |prefix| > |here| then |prefix| else |here| + UsizeModulus - |suffix|))
    ensures |suffix| <= |here| < |prefix| ==>
      Trim(profile, here, prefix, suffix) == Panicked(IndexOutOfBounds(|prefix|))
    ensures |suffix| <= |here| && |prefix| <= |here| ==>
      Trim(profile, here, prefix, suffix) == Panicked(BeginAfterEnd(|prefix|, |here| - |suffix|))
  {
  }

  /** The documented `uninstantiated!` example: inside
      `GenericType<A>::generic_method<B>` the marker's name is the module path,
      then `GenericType<_>::generic_method`, then `Here`, and the result is
      `"GenericType<_>::generic_method"`, whatever the module path. */
  lemma UninstantiatedExample(profile: Profile, modulePath: Str)
    requires |modulePath| <= IsizeMax - 64
    ensures Uninstantiated(profile, modulePath, modulePath + "::" + "GenericType<_>::generic_method" + "::Here")
         == Value("GenericType<_>::generic_method")
  {
    TrimRoundTrip(profile, Prefix(modulePath), "GenericType<_>::generic_method", HereSuffix);
  }

  /** The documented `instantiated!` example: with `A = u8` and `B = bool` the
      closure's name carries `GenericType<u8>::generic_method<bool>` and the
      result is exactly that. */
  lemma InstantiatedExample(profile: Profile, modulePath: Str)
    requires |modulePath| <= IsizeMax - 64
    ensures Instantiated(profile, modulePath, modulePath + "::" + "GenericType<u8>::generic_method<bool>" + "::{{closure}}")
         == Value("GenericType<u8>::generic_method<bool>")
  {
    TrimRoundTrip(profile, Prefix(modulePath), "GenericType<u8>::generic_method<bool>", ClosureSuffix);
  }
}
