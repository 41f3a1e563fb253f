/**
 * The publish/subscribe mixin (dist/Eventing.js).
 *
 * A table maps each event type to its ordered list of subscriptions, a
 * handler paired with the `thisArg` it is to be called with. A pair is
 * listed at most once per type. Publishing an event goes through a copy of
 * the type's list, taken before any handler runs.
 */
module Eventing {
  import opened Wrappers

  /** An opaque JavaScript value compared by identity (`===`): a handler
      function or a `thisArg` object. */
  datatype Ref = Ref(id: nat)

  /** One subscription; a missing `thisArg` is `None` (`undefined`). */
  datatype Entry = Entry(handler: Ref, thisArg: Option<Ref>)

  /** The `types` argument: an array of type names, or one string holding
      several names separated by whitespace. */
  datatype Types = Names(names: seq<string>) | Spaced(text: string)

  /** A published event object; only its `type` is read. */
  datatype Event = Event(eventType: string)

  /** The argument of `publish`: a type name or an event object. */
  datatype EventArg = Named(name: string) | Object(event: Event)

  // ---------------------------------------------------------------------
  // Splitting a type string on /\s+/
  // ---------------------------------------------------------------------

  /** The characters JavaScript's `\s` matches. */
  predicate IsSpace(c: char)
  {
    c == ' ' || '\t' <= c <= '\r' || c == '\U{00A0}' || c == '\U{1680}' ||
    '\U{2000}' <= c <= '\U{200A}' || c == '\U{2028}' || c == '\U{2029}' ||
    c == '\U{202F}' || c == '\U{205F}' || c == '\U{3000}' || c == '\U{FEFF}'
  }

  /** A non-empty string without whitespace. */
  predicate IsWord(w: string)
  {
    |w| > 0 && forall i :: 0 <= i < |w| ==> !IsSpace(w[i])
  }

  /** Drops the run of whitespace at the front of `s`. */
  function SkipSpace(s: string): (r: string)
    ensures |r| <= |s| && r == s[|s| - |r|..]
    ensures s != [] && IsSpace(s[0]) ==> |r| < |s|
    ensures r != [] ==> !IsSpace(r[0])
  {
    if s != [] && IsSpace(s[0]) then SkipSpace(s[1..]) else s
  }

  /** Splits `s` at each maximal run of whitespace, `field` being the part
      of the current field already read. There is always at least one field;
      whitespace at either end yields an empty field there. */
  function SplitFrom(s: string, field: string): (r: seq<string>)
    ensures |r| >= 1
    decreases |s|
  {
    if s == [] then [field]
    else if IsSpace(s[0]) then [field] + SplitFrom(SkipSpace(s), [])
    else SplitFrom(s[1..], field + [s[0]])
  }

  /** `types.split(/\s+/)`. */
  function Split(s: string): seq<string>
  {
    SplitFrom(s, [])
  }

  /** The type names a `types` argument stands for: an array is used as it
      is; a string is split on its whitespace runs, giving at least one name
      and no name that holds whitespace. */
  function TypeNames(types: Types): (r: seq<string>)
    ensures types.Names? ==> r == types.names
    ensures types.Spaced? ==> |r| >= 1
    ensures types.Spaced? ==> forall k, i :: 0 <= k < |r| && 0 <= i < |r[k]| ==> !IsSpace(r[k][i])
  {
    match types
    case Names(ns) => ns
    case Spaced(s) => SplitFieldsSpaceFree(s, []); Split(s)
  }

  /** The names joined with single spaces. */
  function Join(parts: seq<string>): string
  {
    if parts == [] then []
    else if |parts| == 1 then parts[0]
    else parts[0] + [' '] + Join(parts[1..])
  }

  /** Reading a word extends the current field by it. */
  lemma {:induction false} SplitFromWord(w: string, rest: string, field: string)
    requires forall i :: 0 <= i < |w| ==> !IsSpace(w[i])
    requires rest == [] || IsSpace(rest[0])
    ensures SplitFrom(w + rest, field) == SplitFrom(rest, field + w)
    decreases |w|
  {
    if w == [] {
      assert w + rest == rest && field + w == field;
    } else {
      var s := w + rest;
      assert s[0] == w[0] && !IsSpace(s[0]);
      assert s[1..] == w[1..] + rest;
      assert SplitFrom(s, field) == SplitFrom(w[1..] + rest, field + [w[0]]);
      SplitFromWord(w[1..], rest, field + [w[0]]);
      assert field + [w[0]] + w[1..] == field + w;
    }
  }

  /** A single space followed by a word (or nothing) ends the current field. */
  lemma SplitFromSpace(rest: string, field: string)
    requires rest == [] || !IsSpace(rest[0])
    ensures SplitFrom([' '] + rest, field) == [field] + SplitFrom(rest, [])
  {
    var s := [' '] + rest;
    assert s[1..] == rest;
    assert SkipSpace(s) == SkipSpace(rest) == rest;
  }

  /** A space-separated string means the same names as the array of its
      parts: splitting the parts joined by spaces gives the parts back. */
  lemma {:induction false} SplitJoin(parts: seq<string>)
    requires |parts| >= 1
    requires forall i :: 0 <= i < |parts| ==> IsWord(parts[i])
    ensures Split(Join(parts)) == parts
    decreases |parts|
  {
    var w := parts[0];
    assert IsWord(w);
    if |parts| == 1 {
      SplitFromWord(w, [], []);
      assert w + [] == w && [] + w == w;
    } else {
      var more := parts[1..];
      var rest := Join(more);
      assert forall i :: 0 <= i < |more| ==> IsWord(more[i]) by {
        forall i | 0 <= i < |more| ensures IsWord(more[i]) {
          assert more[i] == parts[i + 1];
        }
      }
      SplitJoin(more);
      JoinStartsWithWord(more);
      var tail := [' '] + rest;
      assert Join(parts) == w + tail by {
        assert Join(parts) == w + [' '] + rest;
      }
      SplitFromWord(w, tail, []);
      assert [] + w == w;
      SplitFromSpace(rest, w);
      assert parts == [w] + more;
    }
  }

  /** A join of words starts with a non-space character. */
  lemma {:induction false} JoinStartsWithWord(parts: seq<string>)
    requires |parts| >= 1
    requires forall i :: 0 <= i < |parts| ==> IsWord(parts[i])
    ensures Join(parts) != [] && !IsSpace(Join(parts)[0])
  {
    assert IsWord(parts[0]);
    if |parts| > 1 {
      assert Join(parts) == parts[0] + ([' '] + Join(parts[1..]));
    }
  }

  /** No field of a split holds whitespace. */
  lemma {:induction false} SplitFieldsSpaceFree(s: string, field: string)
    requires forall i :: 0 <= i < |field| ==> !IsSpace(field[i])
    ensures forall k, i :: 0 <= k < |SplitFrom(s, field)| && 0 <= i < |SplitFrom(s, field)[k]| ==>
              !IsSpace(SplitFrom(s, field)[k][i])
    decreases |s|
  {
    if s == [] {
    } else if IsSpace(s[0]) {
      SplitFieldsSpaceFree(SkipSpace(s), []);
    } else {
      SplitFieldsSpaceFree(s[1..], field + [s[0]]);
    }
  }

  // ---------------------------------------------------------------------
  // Subscription lists and the handler table
  // ---------------------------------------------------------------------

  /** No subscription is listed twice. */
  predicate NoDup(s: seq<Entry>)
  {
    forall i, j :: 0 <= i < j < |s| ==> s[i] != s[j]
  }

  /** Every list of the table is free of duplicates. */
  predicate TableNoDup(m: map<string, seq<Entry>>)
  {
    forall t :: t in m ==> NoDup(m[t])
  }

  /** The list for `t`, an empty one when the table has none. */
  function ListOf(m: map<string, seq<Entry>>, t: string): seq<Entry>
  {
    if t in m then m[t] else []
  }

  /** The first position of `e` in `s`, or -1 when `e` is not there. */
  function Position(s: seq<Entry>, e: Entry): (r: int)
    ensures -1 <= r < |s|
    ensures r == -1 <==> e !in s
    ensures r >= 0 ==> s[r] == e && forall j :: 0 <= j < r ==> s[j] != e
    decreases |s|
  {
    if s == [] then -1
    else if s[0] == e then 0
    else
      var k := Position(s[1..], e);
      if k == -1 then -1 else k + 1
  }

  /** `s` with the element at `i` taken out (`splice(i, 1)`). */
  function RemoveAt(s: seq<Entry>, i: nat): (r: seq<Entry>)
    requires i < |s|
  {
    s[..i] + s[i + 1..]
  }

  /** `s` with every occurrence of `e` taken out, order kept. */
  function Without(s: seq<Entry>, e: Entry): seq<Entry>
    decreases |s|
  {
    if s == [] then []
    else if s[0] == e then Without(s[1..], e)
    else [s[0]] + Without(s[1..], e)
  }

  /** Subscribing `e` to one type: the list is created when missing and `e`
      is appended unless it is already listed. */
  function SubscribeOne(m: map<string, seq<Entry>>, t: string, e: Entry): map<string, seq<Entry>>
  {
    var s := ListOf(m, t);
    m[t := if e in s then s else s + [e]]
  }

  /** Subscribing `e` to each of `names`, in order. */
  function SubscribeAll(m: map<string, seq<Entry>>, names: seq<string>, e: Entry): map<string, seq<Entry>>
    decreases |names|
  {
    if names == [] then m
    else SubscribeOne(SubscribeAll(m, names[..|names| - 1], e), names[|names| - 1], e)
  }

  /** One more name in the fold: subscribing to `names[..i + 1]` is
      subscribing to `names[..i]` and then to `names[i]`. */
  lemma SubscribeAllStep(m: map<string, seq<Entry>>, names: seq<string>, i: nat, e: Entry)
    requires i < |names|
    ensures SubscribeAll(m, names[..i + 1], e) == SubscribeOne(SubscribeAll(m, names[..i], e), names[i], e)
  {
    assert names[..i + 1][..i] == names[..i];
  }

  /** Unsubscribing `e` from one type: its first listing is spliced out;
      nothing changes when it is not listed. */
  function UnsubscribeOne(m: map<string, seq<Entry>>, t: string, e: Entry): map<string, seq<Entry>>
  {
    var s := ListOf(m, t);
    var i := Position(s, e);
    if i >= 0 then m[t := RemoveAt(s, i)] else m
  }

  /** Unsubscribing `e` from each of `names`, in order. */
  function UnsubscribeAll(m: map<string, seq<Entry>>, names: seq<string>, e: Entry): map<string, seq<Entry>>
    decreases |names|
  {
    if names == [] then m
    else UnsubscribeOne(UnsubscribeAll(m, names[..|names| - 1], e), names[|names| - 1], e)
  }

  /** The set of names in a sequence. */
  function Elems(names: seq<string>): set<string>
  {
    set i | 0 <= i < |names| :: names[i]
  }

  lemma NoDupAppend(s: seq<Entry>, e: Entry)
    requires NoDup(s) && e !in s
    ensures NoDup(s + [e])
  {
    forall i, j | 0 <= i < j < |s + [e]| ensures (s + [e])[i] != (s + [e])[j] {
      if j == |s| {
        assert (s + [e])[i] == s[i];
      }
    }
  }

  /** After subscribing, a type's list has the pair exactly once: at the end
      when it was new, where it was otherwise; the list is created if
      missing, and every other type is left as it was. */
  lemma {:induction false} SubscribeAllEffect(m: map<string, seq<Entry>>, names: seq<string>, e: Entry, t: string)
    ensures t in SubscribeAll(m, names, e) <==> t in m || t in names
    ensures t !in names ==> ListOf(SubscribeAll(m, names, e), t) == ListOf(m, t)
    ensures t in names ==>
              ListOf(SubscribeAll(m, names, e), t) ==
              (if e in ListOf(m, t) then ListOf(m, t) else ListOf(m, t) + [e])
    decreases |names|
  {
    if names != [] {
      var init := names[..|names| - 1];
      var last := names[|names| - 1];
      SubscribeAllEffect(m, init, e, t);
      assert names == init + [last];
      assert t in names <==> t in init || t == last;
    }
  }

  /** Subscribing keeps every list free of duplicates. */
  lemma {:induction false} SubscribeAllKeepsNoDup(m: map<string, seq<Entry>>, names: seq<string>, e: Entry)
    requires TableNoDup(m)
    ensures TableNoDup(SubscribeAll(m, names, e))
    decreases |names|
  {
    if names != [] {
      var m' := SubscribeAll(m, names[..|names| - 1], e);
      SubscribeAllKeepsNoDup(m, names[..|names| - 1], e);
      var s := ListOf(m', names[|names| - 1]);
      if e !in s {
        NoDupAppend(s, e);
      }
    }
  }

  /** The rest of a duplicate-free list is duplicate-free and lacks its first element. */
  lemma NoDupTail(s: seq<Entry>)
    requires NoDup(s) && s != []
    ensures NoDup(s[1..]) && s[0] !in s[1..]
  {
    var t := s[1..];
    forall i, j | 0 <= i < j < |t| ensures t[i] != t[j] {
      assert t[i] == s[i + 1] && t[j] == s[j + 1];
    }
    forall j | 0 <= j < |t| ensures t[j] != s[0] {
      assert t[j] == s[j + 1];
    }
  }

  /** Splicing below the first element keeps the first element in front. */
  lemma RemoveAtCons(s: seq<Entry>, k: nat)
    requires k + 1 < |s|
    ensures RemoveAt(s, k + 1) == [s[0]] + RemoveAt(s[1..], k)
  {
    assert s[..k + 1] == [s[0]] + s[1..][..k];
    assert s[k + 2..] == s[1..][k + 1..];
  }

  /** With no duplicates, splicing out the first listing of `e` takes out
      every listing of it, keeping the order of the rest. */
  lemma {:induction false} RemoveFirstIsWithout(s: seq<Entry>, e: Entry)
    requires NoDup(s) && e in s
    ensures RemoveAt(s, Position(s, e)) == Without(s, e)
    ensures e !in Without(s, e) && NoDup(Without(s, e))
    decreases |s|
  {
    NoDupTail(s);
    var t := s[1..];
    if s[0] == e {
      WithoutAbsent(t, e);
      assert RemoveAt(s, 0) == t;
    } else {
      assert e in t;
      RemoveFirstIsWithout(t, e);
      var k := Position(t, e);
      assert Position(s, e) == k + 1;
      RemoveAtCons(s, k);
      WithoutSubset(t, e, s[0]);
      ConsNoDup(s[0], Without(t, e));
    }
  }

  /** Taking out an absent element changes nothing. */
  lemma {:induction false} WithoutAbsent(s: seq<Entry>, e: Entry)
    requires e !in s
    ensures Without(s, e) == s
    decreases |s|
  {
    if s != [] {
      assert e !in s[1..];
      WithoutAbsent(s[1..], e);
      assert s == [s[0]] + s[1..];
    }
  }

  /** Whatever is left after taking out `e` was there before. */
  lemma {:induction false} WithoutSubset(s: seq<Entry>, e: Entry, x: Entry)
    requires x !in s
    ensures x !in Without(s, e)
    decreases |s|
  {
    if s != [] {
      assert x !in s[1..];
      WithoutSubset(s[1..], e, x);
    }
  }

  lemma ConsNoDup(x: Entry, s: seq<Entry>)
    requires NoDup(s) && x !in s
    ensures NoDup([x] + s)
  {
    forall i, j | 0 <= i < j < |[x] + s| ensures ([x] + s)[i] != ([x] + s)[j] {
      if i == 0 {
        assert ([x] + s)[j] == s[j - 1];
      } else {
        assert ([x] + s)[i] == s[i - 1] && ([x] + s)[j] == s[j - 1];
      }
    }
  }

  /** On a table without duplicates, unsubscribing a pair from `names`
      takes it out of exactly those types' lists, keeping the order of the
      rest and the set of types; other types are left as they were. */
  lemma {:induction false} UnsubscribeAllEffect(m: map<string, seq<Entry>>, names: seq<string>, e: Entry, t: string)
    requires TableNoDup(m)
    ensures TableNoDup(UnsubscribeAll(m, names, e))
    ensures UnsubscribeAll(m, names, e).Keys == m.Keys
    ensures t !in names ==> ListOf(UnsubscribeAll(m, names, e), t) == ListOf(m, t)
    ensures t in names ==> ListOf(UnsubscribeAll(m, names, e), t) == Without(ListOf(m, t), e)
    decreases |names|
  {
    if names != [] {
      var init := names[..|names| - 1];
      var last := names[|names| - 1];
      var m' := UnsubscribeAll(m, init, e);
      UnsubscribeAllEffect(m, init, e, t);
      UnsubscribeAllEffect(m, init, e, last);
      assert names == init + [last];
      assert t in names <==> t in init || t == last;
      var s := ListOf(m', last);
      if e in s {
        RemoveFirstIsWithout(s, e);
        assert TableNoDup(UnsubscribeOne(m', last, e)) by {
          forall u | u in UnsubscribeOne(m', last, e) ensures NoDup(UnsubscribeOne(m', last, e)[u]) {
            if u != last {
              assert UnsubscribeOne(m', last, e)[u] == m'[u];
            }
          }
        }
      }
      if t == last {
        var s0 := ListOf(m, t);
        if t in init {
          assert s == Without(s0, e);
          if e in s0 {
            RemoveFirstIsWithout(s0, e);
          } else {
            WithoutAbsent(s0, e);
          }
          assert e !in s;
          WithoutAbsent(s, e);
        } else {
          assert s == s0;
          if e !in s {
            WithoutAbsent(s, e);
          }
        }
      }
    }
  }

  /** Unsubscribing a pair that no listed type holds changes nothing. */
  lemma {:induction false} UnsubscribeAbsentIsNoOp(m: map<string, seq<Entry>>, names: seq<string>, e: Entry)
    requires forall i :: 0 <= i < |names| ==> e !in ListOf(m, names[i])
    ensures UnsubscribeAll(m, names, e) == m
    decreases |names|
  {
    if names != [] {
      UnsubscribeAbsentIsNoOp(m, names[..|names| - 1], e);
    }
  }

  /** Subscribing the same pair to the same types again changes nothing. */
  lemma SubscribeAllIdempotent(m: map<string, seq<Entry>>, names: seq<string>, e: Entry)
    ensures SubscribeAll(SubscribeAll(m, names, e), names, e) == SubscribeAll(m, names, e)
  {
    var m1 := SubscribeAll(m, names, e);
    var m2 := SubscribeAll(m1, names, e);
    forall t
      ensures (t in m2 <==> t in m1) && (t in m1 ==> m2[t] == m1[t])
    {
      SubscribeAllEffect(m, names, e, t);
      SubscribeAllEffect(m1, names, e, t);
    }
    assert m2.Keys == m1.Keys;
  }

  /** Taking `e` out of a list it was just appended to gives the list back. */
  lemma {:induction false} WithoutAppended(s: seq<Entry>, e: Entry)
    requires e !in s
    ensures Without(s + [e], e) == s
    decreases |s|
  {
    if s == [] {
      assert [] + [e] == [e];
    } else {
      assert (s + [e])[0] == s[0] && (s + [e])[1..] == s[1..] + [e];
      assert e !in s[1..];
      WithoutAppended(s[1..], e);
      assert s == [s[0]] + s[1..];
    }
  }

  /** Subscribing a pair that none of `names` lists and then unsubscribing
      it from the same names gives every type its old list back. */
  lemma SubscribeThenUnsubscribe(m: map<string, seq<Entry>>, names: seq<string>, e: Entry, t: string)
    requires TableNoDup(m)
    requires forall i :: 0 <= i < |names| ==> e !in ListOf(m, names[i])
    ensures ListOf(UnsubscribeAll(SubscribeAll(m, names, e), names, e), t) == ListOf(m, t)
  {
    var m1 := SubscribeAll(m, names, e);
    SubscribeAllKeepsNoDup(m, names, e);
    SubscribeAllEffect(m, names, e, t);
    UnsubscribeAllEffect(m1, names, e, t);
    if t in names {
      var i :| 0 <= i < |names| && names[i] == t;
      WithoutAppended(ListOf(m, t), e);
    }
  }

  // ---------------------------------------------------------------------
  // The mixin's state
  // ---------------------------------------------------------------------

  class Publisher {
    /** `_handlers`: the subscriptions by event type. */
    var handlers: map<string, seq<Entry>>

    ghost predicate Valid()
      reads this
    {
      TableNoDup(handlers)
    }

    /** The table starts out empty (the private `handlers` creates it on first use). */
    constructor ()
      ensures Valid() && handlers == map[]
    {
      handlers := map[];
    }

    /** The private `indexOf`: the position of the first subscription of
        `eventType` with this handler and this `thisArg`, -1 when there is
        none or the type has no list. */
    method IndexOf(eventType: string, fn: Ref, thisArg: Option<Ref>) returns (r: int)
      ensures var s := ListOf(handlers, eventType);
              (r == -1 <==> Entry(fn, thisArg) !in s) &&
              (r != -1 ==> 0 <= r < |s| && s[r] == Entry(fn, thisArg) &&
                           forall j :: 0 <= j < r ==> s[j] != Entry(fn, thisArg))
    {
      var list := ListOf(handlers, eventType);
      var index := 0;
      while index < |list|
        invariant 0 <= index <= |list|
        invariant forall j :: 0 <= j < index ==> list[j] != Entry(fn, thisArg)
      {
        var handler := list[index];
        index := index + 1;
        if handler.handler == fn && handler.thisArg == thisArg {
          return index - 1;
        }
      }
      return -1;
    }

    /** `subscribe`: for each type, creates its list if missing and appends
        the pair unless it is already listed. */
    method Subscribe(types: Types, fn: Ref, thisArg: Option<Ref>)
      requires Valid()
      modifies this
      ensures Valid()
      ensures handlers == SubscribeAll(old(handlers), TypeNames(types), Entry(fn, thisArg))
    {
      var names := TypeNames(types);
      var e := Entry(fn, thisArg);
      var i := 0;
      while i < |names|
        invariant 0 <= i <= |names|
        invariant handlers == SubscribeAll(old(handlers), names[..i], e)
      {
        ghost var before := handlers;
        var t := names[i];
        handlers := handlers[t := ListOf(handlers, t)];
        var index := IndexOf(t, fn, thisArg);
        if index == -1 {
          handlers := handlers[t := handlers[t] + [e]];
        }
        assert handlers == SubscribeOne(before, t, e);
        SubscribeAllStep(old(handlers), names, i, e);
        i := i + 1;
      }
      assert names[..i] == names;
      SubscribeAllKeepsNoDup(old(handlers), names, e);
    }

    /** The private `clearHandlers`. */
    method ClearHandlers()
      modifies this
      ensures Valid() && handlers == map[]
    {
      handlers := map[];
    }

    /** The private `removeHandlers`: deletes the lists of the given types. */
    method RemoveHandlers(names: seq<string>)
      requires Valid()
      modifies this
      ensures Valid()
      ensures handlers == old(handlers) - Elems(names)
    {
      var i := 0;
      while i < |names|
        invariant 0 <= i <= |names|
        invariant handlers == old(handlers) - Elems(names[..i])
      {
        assert Elems(names[..i + 1]) == Elems(names[..i]) + {names[i]};
        handlers := handlers - {names[i]};
        i := i + 1;
      }
      assert names[..i] == names;
    }

    /** `unsubscribe`: with no types, clears the table; with types but no
        handler, deletes those types' lists; otherwise splices the pair out
        of each type's list where it is listed. */
    method Unsubscribe(types: Option<Types>, fn: Option<Ref>, thisArg: Option<Ref>)
      requires Valid()
      modifies this
      ensures Valid()
      ensures types.None? ==> handlers == map[]
      ensures types.Some? && fn.None? ==> handlers == old(handlers) - Elems(TypeNames(types.value))
      ensures types.Some? && fn.Some? ==>
                handlers == UnsubscribeAll(old(handlers), TypeNames(types.value), Entry(fn.value, thisArg))
    {
      if types.None? {
        ClearHandlers();
      } else {
        var names := TypeNames(types.value);
        if fn.None? {
          RemoveHandlers(names);
        } else {
          var e := Entry(fn.value, thisArg);
          var i := 0;
          while i < |names|
            invariant 0 <= i <= |names|
            invariant handlers == UnsubscribeAll(old(handlers), names[..i], e)
          {
            var t := names[i];
            var index := IndexOf(t, fn.value, thisArg);
            if index > -1 {
              handlers := handlers[t := RemoveAt(handlers[t], index)];
            }
            assert names[..i + 1][..i] == names[..i];
            i := i + 1;
          }
          assert names[..i] == names;
          UnsubscribeAllEffect(old(handlers), names, e, "");
        }
      }
    }

    /** `publish`: a type name becomes the event `{type: name}`; the event
        then goes to the type's subscriptions, in subscription order. */
    method Publish(event: EventArg) returns (ev: Event, calls: seq<Entry>)
      ensures ev == match event
                    case Named(name) => Event(name)
                    case Object(e) => e
      ensures calls == ListOf(handlers, ev.eventType)
    {
      ev := if event.Named? then Event(event.name) else event.event;
      calls := HandleEvent(ev);
    }

    /** The private `handleEvent`: walks a copy of the type's list taken
        before dispatch, yielding each subscription once, in order. */
    method HandleEvent(ev: Event) returns (calls: seq<Entry>)
      ensures |calls| == |ListOf(handlers, ev.eventType)|
      ensures forall i :: 0 <= i < |calls| ==> calls[i] == ListOf(handlers, ev.eventType)[i]
    {
      var list := ListOf(handlers, ev.eventType);
      var index := 0;
      calls := [];
      while index < |list|
        invariant 0 <= index <= |list|
        invariant calls == list[..index]
      {
        var handler := list[index];
        index := index + 1;
        calls := calls + [handler];
      }
    }
  }
}
