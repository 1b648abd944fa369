/**
 * `addClass` and `removeClass` of rubiks.timer.js, on the class attribute's
 * text: split at runs of white space, keep the non-empty tokens other than
 * the named class, (for `addClass`) append the class, and join with single
 * spaces.  The element whose attribute is rewritten is not modelled.
 */
module ClassList {

  /** The characters JavaScript's `\s` matches. */
  predicate IsSpace(c: char)
  {
    || c == ' ' || c == '\t' || c == '\n' || c == '\r'
    || c == '\U{000B}' || c == '\U{000C}' || c == '\U{00A0}' || c == '\U{1680}'
    || ('\U{2000}' <= c <= '\U{200A}')
    || c == '\U{2028}' || c == '\U{2029}' || c == '\U{202F}' || c == '\U{205F}'
    || c == '\U{3000}' || c == '\U{FEFF}'
  }

  predicate NoSpace(s: string)
  {
    forall i :: 0 <= i < |s| ==> !IsSpace(s[i])
  }

  /** A name `split` returns unchanged: not empty and without white space. */
  predicate IsClassName(s: string)
  {
    s != "" && NoSpace(s)
  }

  /** `s` without its leading white space. */
  function TrimStart(s: string): (r: string)
    ensures |r| <= |s|
    ensures r == [] || !IsSpace(r[0])
  {
    if s != [] && IsSpace(s[0]) then TrimStart(s[1..]) else s
  }

  /**
   * `s.split(/\s+/)`: the pieces between runs of white space, with an
   * empty first piece when `s` starts with white space and an empty last
   * one when it ends with it; `[""]` for the empty string.
   */
  function Split(s: string): (tokens: seq<string>)
    ensures |tokens| >= 1
    ensures forall i :: 0 <= i < |tokens| ==> NoSpace(tokens[i])
    decreases |s|
  {
    if s == [] then [""]
    else if IsSpace(s[0]) then [""] + Split(TrimStart(s[1..]))
    else
      var rest := Split(s[1..]);
      assert NoSpace(rest[0]);
      assert NoSpace([s[0]] + rest[0]);
      [[s[0]] + rest[0]] + rest[1..]
  }

  /** `tokens.join(" ")`. */
  function Join(tokens: seq<string>): string
  {
    if tokens == [] then ""
    else if |tokens| == 1 then tokens[0]
    else tokens[0] + " " + Join(tokens[1..])
  }

  /** The tokens the loop keeps: the non-empty ones other than `name`, in order. */
  function Without(tokens: seq<string>, name: string): (r: seq<string>)
    ensures |r| <= |tokens|
    ensures forall t :: t in r <==> t in tokens && t != "" && t != name
  {
    if tokens == [] then []
    else
      var last := tokens[|tokens| - 1];
      assert tokens == tokens[..|tokens| - 1] + [last];
      Without(tokens[..|tokens| - 1], name) + (if last != "" && last != name then [last] else [])
  }

  /** The class attribute `addClass(element, name)` writes. */
  function ClassesAdded(className: string, name: string): string
  {
    Join(Without(Split(className), name) + [name])
  }

  /** The class attribute `removeClass(element, name)` writes. */
  function ClassesRemoved(className: string, name: string): string
  {
    Join(Without(Split(className), name))
  }

  /** The shift/push loop shared by `addClass` and `removeClass`. */
  method KeepOthers(classes: seq<string>, name: string) returns (newClasses: seq<string>)
    ensures newClasses == Without(classes, name)
  {
    newClasses := [];
    var rest := classes;
    while |rest| > 0
      invariant |rest| <= |classes|
      invariant rest == classes[|classes| - |rest|..]
      invariant newClasses == Without(classes[..|classes| - |rest|], name)
    {
      var clazz := rest[0];
      ghost var done := |classes| - |rest|;
      assert classes[..done + 1][..done] == classes[..done];
      rest := rest[1..];
      if clazz != "" && clazz != name {
        newClasses := newClasses + [clazz];
      }
    }
    assert classes[..|classes|] == classes;
  }

  /** `addClass`: the attribute's other classes, then `newClass` once. */
  method AddClass(className: string, newClass: string) returns (r: string)
    ensures r == ClassesAdded(className, newClass)
  {
    var newClasses := KeepOthers(Split(className), newClass);
    newClasses := newClasses + [newClass];
    r := Join(newClasses);
  }

  /** `removeClass`: the attribute's classes other than `oldClass`. */
  method RemoveClass(className: string, oldClass: string) returns (r: string)
    ensures r == ClassesRemoved(className, oldClass)
  {
    var newClasses := KeepOthers(Split(className), oldClass);
    r := Join(newClasses);
  }

  // ---------------------------------------------------------------------
  // Splitting what was joined

  /** A token without white space in front of `s` extends the first piece of `s`. */
  lemma {:induction false} SplitAfterWord(t: string, s: string)
    requires NoSpace(t)
    ensures Split(t + s) == [t + Split(s)[0]] + Split(s)[1..]
    decreases |t|
  {
    if t != [] {
      SplitAfterWord(t[1..], s);
      var ts := t + s;
      assert ts[0] == t[0] && !IsSpace(ts[0]);
      assert ts[1..] == t[1..] + s;
      var rest := Split(ts[1..]);
      assert rest == [t[1..] + Split(s)[0]] + Split(s)[1..];
      assert rest[0] == t[1..] + Split(s)[0];
      assert rest[1..] == Split(s)[1..];
      assert Split(ts) == [[ts[0]] + rest[0]] + rest[1..];
      assert [t[0]] + (t[1..] + Split(s)[0]) == t + Split(s)[0];
    } else {
      assert t + s == s;
      assert t + Split(s)[0] == Split(s)[0];
      assert [t + Split(s)[0]] + Split(s)[1..] == Split(s);
    }
  }

  /** Joining class names with single spaces and splitting again gives them back. */
  lemma {:induction false} SplitJoin(tokens: seq<string>)
    requires |tokens| >= 1 && forall i :: 0 <= i < |tokens| ==> IsClassName(tokens[i])
    ensures Split(Join(tokens)) == tokens
  {
    var t := tokens[0];
    if |tokens| == 1 {
      SplitAfterWord(t, "");
      assert t + "" == t;
    } else {
      var rest := tokens[1..];
      var j := Join(rest);
      SplitJoin(rest);
      assert IsClassName(rest[0]);
      assert Split(j)[0] != "";
      assert j != [] && !IsSpace(j[0]);
      assert TrimStart(j) == j;
      var sj := " " + j;
      assert sj[0] == ' ' && sj[1..] == j;
      assert Split(sj) == [""] + rest;
      assert Join(tokens) == t + sj;
      assert t + "" == t;
      SplitAfterWord(t, " " + j);
    }
  }

  /** What `Without` keeps is made of class names. */
  lemma WithoutKeepsClassNames(tokens: seq<string>, name: string)
    requires forall t :: t in tokens ==> NoSpace(t)
    ensures forall t :: t in Without(tokens, name) ==> IsClassName(t)
  {
  }

  /** Splitting what `Join` made of class names and dropping empties gives the names back, even for none. */
  lemma SplitJoinWithout(tokens: seq<string>, name: string)
    requires forall i :: 0 <= i < |tokens| ==> IsClassName(tokens[i])
    ensures Without(Split(Join(tokens)), name) == Without(tokens, name)
  {
    if tokens == [] {
      assert Split(Join(tokens)) == [""];
      assert Without([""], name) == Without([], name) + [];
    } else {
      SplitJoin(tokens);
    }
  }

  /** Filtering twice by the same name changes nothing. */
  lemma {:induction false} WithoutIdempotent(tokens: seq<string>, name: string)
    ensures Without(Without(tokens, name), name) == Without(tokens, name)
  {
    if tokens != [] {
      var init := tokens[..|tokens| - 1];
      var last := tokens[|tokens| - 1];
      WithoutIdempotent(init, name);
      var w := Without(init, name);
      assert tokens[..|tokens| - 1] == init;
      if last != "" && last != name {
        var wl := w + [last];
        assert Without(tokens, name) == wl;
        assert wl[..|wl| - 1] == w && wl[|wl| - 1] == last;
        assert Without(wl, name) == Without(w, name) + [last];
      } else {
        assert Without(tokens, name) == w;
      }
    }
  }

  /** A trailing copy of the name is filtered out. */
  lemma WithoutAppendName(tokens: seq<string>, name: string)
    ensures Without(tokens + [name], name) == Without(tokens, name)
  {
    var tn := tokens + [name];
    assert tn[..|tn| - 1] == tokens;
  }

  // ---------------------------------------------------------------------
  // Properties of addClass and removeClass

  /**
   * For a class name, the classes `addClass` leaves are the non-empty
   * tokens other than it, in their order, followed by the name exactly once.
   */
  lemma AddClassTokens(className: string, name: string)
    requires IsClassName(name)
    ensures Split(ClassesAdded(className, name)) == Without(Split(className), name) + [name]
    ensures multiset(Split(ClassesAdded(className, name)))[name] == 1
  {
    var w := Without(Split(className), name);
    WithoutKeepsClassNames(Split(className), name);
    SplitJoin(w + [name]);
    assert name !in w;
    assert multiset(w)[name] == 0;
  }

  /** The classes `removeClass` leaves are the non-empty tokens other than the name, in their order. */
  lemma RemoveClassTokens(className: string, name: string)
    ensures Without(Split(ClassesRemoved(className, name)), name) == Without(Split(className), name)
    ensures name != "" ==> name !in Split(ClassesRemoved(className, name))
  {
    var w := Without(Split(className), name);
    WithoutKeepsClassNames(Split(className), name);
    SplitJoinWithout(w, name);
    WithoutIdempotent(Split(className), name);
    if w == [] {
      assert Split(ClassesRemoved(className, name)) == [""];
    } else {
      SplitJoin(w);
    }
  }

  /** Adding a class name a second time changes nothing. */
  lemma AddClassIdempotent(className: string, name: string)
    requires IsClassName(name)
    ensures ClassesAdded(ClassesAdded(className, name), name) == ClassesAdded(className, name)
  {
    var w := Without(Split(className), name);
    AddClassTokens(className, name);
    WithoutAppendName(w, name);
    WithoutIdempotent(Split(className), name);
    assert Without(Split(ClassesAdded(className, name)), name) == w;
  }

  /** Removing a class a second time changes nothing. */
  lemma RemoveClassIdempotent(className: string, name: string)
    ensures ClassesRemoved(ClassesRemoved(className, name), name) == ClassesRemoved(className, name)
  {
    RemoveClassTokens(className, name);
  }

  /** Removing a class name just added leaves what removing it from the start would. */
  lemma RemoveAfterAdd(className: string, name: string)
    requires IsClassName(name)
    ensures ClassesRemoved(ClassesAdded(className, name), name) == ClassesRemoved(className, name)
  {
    var w := Without(Split(className), name);
    AddClassTokens(className, name);
    WithoutAppendName(w, name);
    WithoutIdempotent(Split(className), name);
    assert Without(Split(ClassesAdded(className, name)), name) == w;
  }

  /** "a b" splits into two classes. */
  lemma SplitExample()
    ensures Split("") == [""]
    ensures Split("a b") == ["a", "b"]
  {
    assert !IsSpace('a') && !IsSpace('b') && IsSpace(' ');
    assert "b"[0] == 'b' && "b"[1..] == "";
    assert ['b'] + "" == "b";
    assert Split("b") == ["b"];
    assert TrimStart("b") == "b";
    assert " b"[0] == ' ' && " b"[1..] == "b";
    assert Split(" b") == ["", "b"];
    assert "a b"[0] == 'a' && "a b"[1..] == " b";
    assert ['a'] + "" == "a";
  }

  lemma JoinExample()
    ensures Join(["a", "b", "a b"]) == "a b a b"
  {
    var tokens := ["a", "b", "a b"];
    assert tokens[1..] == ["b", "a b"] && tokens[1..][1..] == ["a b"];
    assert Join(["b", "a b"]) == "b" + " " + "a b";
  }

  lemma WithoutExample()
    ensures Without([""], "a b") == []
    ensures Without(["a", "b"], "a b") == ["a", "b"]
  {
    assert [""][..0] == [];
    assert ["a", "b"][..1] == ["a"];
    assert ["a"][..0] == [];
    assert Without(["a"], "a b") == ["a"];
  }

  /** A name with white space in it is not idempotent: "a b" added twice appears twice. */
  lemma AddClassNeedsClassName()
    ensures ClassesAdded("", "a b") == "a b"
    ensures ClassesAdded("a b", "a b") == "a b a b"
  {
    SplitExample();
    WithoutExample();
    JoinExample();
    assert [] + ["a b"] == ["a b"];
    assert ["a", "b"] + ["a b"] == ["a", "b", "a b"];
  }
}
