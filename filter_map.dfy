/**
 * The shape of a loop that visits a list in order and, for each element,
 * either skips it or appends one output: a filter-map.
 */
module FilterMaps {
  import opened Wrappers

  /** The outputs `f` gives for the elements of `s`, in the order of `s`. */
  function FilterMap<A, B>(f: A -> Option<B>, s: seq<A>): (r: seq<B>)
    ensures |r| <= |s|
    decreases |s|
  {
    if s == [] then []
    else
      var earlier := FilterMap(f, s[..|s| - 1]);
      match f(s[|s| - 1])
      case Some(b) => earlier + [b]
      case None => earlier
  }

  /** The output, if any, of one element, as a list of zero or one items. */
  function Emitted<B>(o: Option<B>): (r: seq<B>)
    ensures |r| <= 1
    ensures |r| == 1 ==> o == Some(r[0])
  {
    match o
    case Some(b) => [b]
    case None => []
  }

  /** Visiting one more element appends its output, if any. */
  lemma FilterMapSnoc<A, B>(f: A -> Option<B>, s: seq<A>, a: A)
    ensures FilterMap(f, s + [a]) == FilterMap(f, s) + Emitted(f(a))
  {
    assert (s + [a])[..|s|] == s;
  }

  /** The outputs of a concatenation are the concatenated outputs. */
  lemma {:induction false} FilterMapAppend<A, B>(f: A -> Option<B>, s: seq<A>, t: seq<A>)
    ensures FilterMap(f, s + t) == FilterMap(f, s) + FilterMap(f, t)
    decreases |t|
  {
    if t == [] {
      assert s + t == s;
    } else {
      var t', last := t[..|t| - 1], t[|t| - 1];
      assert t == t' + [last];
      assert s + t == (s + t') + [last];
      FilterMapAppend(f, s, t');
      FilterMapSnoc(f, s + t', last);
      FilterMapSnoc(f, t', last);
    }
  }

  /** Each element contributes its output, or nothing, at its own place. */
  lemma FilterMapAround<A, B>(f: A -> Option<B>, s: seq<A>, i: nat)
    requires i < |s|
    ensures FilterMap(f, s) == FilterMap(f, s[..i]) + Emitted(f(s[i])) + FilterMap(f, s[i + 1..])
  {
    var before, after := s[..i], s[i + 1..];
    FilterMapSnoc(f, before, s[i]);
    FilterMapAppend(f, before + [s[i]], after);
    SplitAt(s, i);
  }

  lemma SplitAt<T>(s: seq<T>, i: nat)
    requires i < |s|
    ensures s[..i] + [s[i]] + s[i + 1..] == s
  {
    assert s[..i] + [s[i]] == s[..i + 1];
  }

  /** When every element has an output, there is one output per element, in order. */
  lemma {:induction false} FilterMapAll<A, B>(f: A -> Option<B>, s: seq<A>)
    requires forall i :: 0 <= i < |s| ==> f(s[i]).Some?
    ensures |FilterMap(f, s)| == |s|
    ensures forall i :: 0 <= i < |s| ==> FilterMap(f, s)[i] == f(s[i]).value
    decreases |s|
  {
    if s != [] {
      var init := s[..|s| - 1];
      assert forall i :: 0 <= i < |init| ==> init[i] == s[i];
      FilterMapAll(f, init);
    }
  }

  /** When no element has an output, there are none. */
  lemma {:induction false} FilterMapNone<A, B>(f: A -> Option<B>, s: seq<A>)
    requires forall i :: 0 <= i < |s| ==> f(s[i]).None?
    ensures FilterMap(f, s) == []
    decreases |s|
  {
    if s != [] {
      var init := s[..|s| - 1];
      assert forall i :: 0 <= i < |init| ==> init[i] == s[i];
      FilterMapNone(f, init);
    }
  }

  /** Exactly the outputs of the elements appear, and nothing else. */
  lemma {:induction false} FilterMapMembers<A, B>(f: A -> Option<B>, s: seq<A>, b: B)
    ensures b in FilterMap(f, s) <==> exists i :: 0 <= i < |s| && f(s[i]) == Some(b)
    decreases |s|
  {
    if s != [] {
      var init, last := s[..|s| - 1], s[|s| - 1];
      FilterMapMembers(f, init, b);
      if exists i :: 0 <= i < |s| && f(s[i]) == Some(b) {
        var i :| 0 <= i < |s| && f(s[i]) == Some(b);
        if i < |init| {
          assert init[i] == s[i];
        }
      }
      if exists i :: 0 <= i < |init| && f(init[i]) == Some(b) {
        var i :| 0 <= i < |init| && f(init[i]) == Some(b);
        assert s[i] == init[i];
      }
    }
  }
}
