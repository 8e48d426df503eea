/** Installing and removing the handler in the host's list of frame-change
    callbacks. The list is a sequence of handler identities. */
module Registration {

  /** `register`: append `h` unless it is already in the list. */
  function Register<H(==)>(handlers: seq<H>, h: H): (r: seq<H>)
    ensures h in r
    ensures handlers <= r
    ensures |r| == |handlers| + (if h in handlers then 0 else 1)
  {
    if h in handlers then handlers else handlers + [h]
  }

  /** Python's `list.remove`: drop the first occurrence of `h`. */
  function RemoveFirst<H(==)>(s: seq<H>, h: H): (r: seq<H>)
    requires h in s
    ensures multiset(r) == multiset(s) - multiset{h}
  {
    if s[0] == h then
      assert s == [s[0]] + s[1..];
      s[1..]
    else
      assert s == [s[0]] + s[1..];
      [s[0]] + RemoveFirst(s[1..], h)
  }

  /** `unregister`: remove `h` if it is in the list. */
  function Unregister<H(==)>(handlers: seq<H>, h: H): (r: seq<H>)
    ensures h in handlers ==> multiset(r) == multiset(handlers) - multiset{h}
    ensures h !in handlers ==> r == handlers
  {
    if h in handlers then RemoveFirst(handlers, h) else handlers
  }

  /** Registering twice is registering once. */
  lemma RegisterIdempotent<H>(handlers: seq<H>, h: H)
    ensures Register(Register(handlers, h), h) == Register(handlers, h)
  {
  }

  lemma {:induction false} RemoveFirstOfAppended<H>(s: seq<H>, h: H)
    requires h !in s
    ensures RemoveFirst(s + [h], h) == s
    decreases |s|
  {
    if |s| > 0 {
      assert (s + [h])[0] == s[0];
      assert (s + [h])[1..] == s[1..] + [h];
      RemoveFirstOfAppended(s[1..], h);
    }
  }

  /** Unregistering undoes a registration that added the handler. */
  lemma RegisterThenUnregister<H>(handlers: seq<H>, h: H)
    requires h !in handlers
    ensures Unregister(Register(handlers, h), h) == handlers
  {
    RemoveFirstOfAppended(handlers, h);
  }

  /** A list holding the handler at most once holds it exactly once after
      `register` and not at all after `unregister`. */
  lemma AtMostOnceKept<H>(handlers: seq<H>, h: H)
    requires multiset(handlers)[h] <= 1
    ensures multiset(Register(handlers, h))[h] == 1
    ensures h !in Unregister(handlers, h)
  {
    var u := Unregister(handlers, h);
    if h in handlers {
      assert multiset(u)[h] == 0;
    }
    assert h !in multiset(u);
  }
}
