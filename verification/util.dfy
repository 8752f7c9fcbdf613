/**
 `StringMutTail` from src/util.rs: a string buffer holding a fixed head
 followed by a decimal tail that each call to `with_tail_int` rewrites.
 The tail index is a byte offset in Rust and a character offset here; both
 mark the end of the base, which is never changed and where `truncate`
 always cuts.
 */
module Util {
  import opened Decimal

  datatype StringMutTail = StringMutTail(url: string, tailIndex: nat) {

    predicate Valid() {
      tailIndex <= |url|
    }

    /** The fixed part, `&url[..tail_index]`. */
    function Head(): string
      requires Valid()
    {
      url[..tailIndex]
    }

    /** The rewritable part, `&url[tail_index..]`. */
    function Tail(): string
      requires Valid()
    {
      url[tailIndex..]
    }
  }

  /** `From<String>`: the whole base becomes the head and the tail starts empty. */
  function FromString(base: string): (t: StringMutTail)
    ensures t.Valid()
    ensures t.Head() == base && t.Tail() == []
  {
    StringMutTail(base, |base|)
  }

  /** `From<&str>`: the same buffer `From<String>` builds from an owned copy. */
  function FromStr(base: string): (t: StringMutTail)
    ensures t.Valid()
    ensures t.Head() == base && t.Tail() == []
    ensures t == FromString(base)
  {
    FromString(base)
  }

  /**
   `with_tail_int`: truncates the buffer back to its head, appends the
   decimal rendering of `n`, and returns the updated buffer together with
   the text it now holds.
   */
  function WithTailInt(t: StringMutTail, n: nat): (r: (StringMutTail, string))
    requires t.Valid()
    ensures r.0.Valid()
    ensures r.0.tailIndex == t.tailIndex && r.0.Head() == t.Head()
    ensures r.0.Tail() == Format(n)
    ensures r.1 == r.0.url
  {
    var url := t.url[..t.tailIndex] + Format(n);
    assert url[..t.tailIndex] == t.url[..t.tailIndex];
    (StringMutTail(url, t.tailIndex), url)
  }

  /** The address written is exactly the head followed by the rendering of `n`. */
  lemma WithTailIntText(t: StringMutTail, n: nat)
    requires t.Valid()
    ensures WithTailInt(t, n).1 == t.Head() + Format(n)
  {
    var u := WithTailInt(t, n).0;
    assert u.url == u.Head() + u.Tail();
  }

  /** An earlier call leaves no trace: only the latest integer matters. */
  lemma WithTailIntForgets(t: StringMutTail, a: nat, b: nat)
    requires t.Valid()
    ensures WithTailInt(WithTailInt(t, a).0, b) == WithTailInt(t, b)
  {
  }

  /** Distinct integers give distinct texts, so distinct probe levels never share an address. */
  lemma WithTailIntInjective(t: StringMutTail, a: nat, b: nat)
    requires t.Valid()
    ensures WithTailInt(t, a).1 == WithTailInt(t, b).1 <==> a == b
  {
    WithTailIntText(t, a);
    WithTailIntText(t, b);
    var h := t.Head();
    if WithTailInt(t, a).1 == WithTailInt(t, b).1 {
      assert Format(a) == (h + Format(a))[|h|..] == (h + Format(b))[|h|..] == Format(b);
      FormatInjective(a, b);
    }
  }

  /** The buffer after a whole series of `with_tail_int` calls, in order. */
  function WithTailInts(t: StringMutTail, ns: seq<nat>): (u: StringMutTail)
    requires t.Valid()
    ensures u.Valid()
    decreases |ns|
  {
    if |ns| == 0 then t else WithTailInts(WithTailInt(t, ns[0]).0, ns[1..])
  }

  /**
   Across any series of calls the tail index never moves, the head keeps
   the original base, and the text is the base followed by the last integer.
   */
  lemma {:induction false} WithTailIntsKeepHead(base: string, ns: seq<nat>)
    requires |ns| >= 1
    ensures WithTailInts(FromStr(base), ns).tailIndex == |base|
    ensures WithTailInts(FromStr(base), ns).Head() == base
    ensures WithTailInts(FromStr(base), ns).url == base + Format(ns[|ns| - 1])
  {
    KeepHead(FromStr(base), ns);
  }

  lemma {:induction false} KeepHead(t: StringMutTail, ns: seq<nat>)
    requires t.Valid() && |ns| >= 1
    ensures WithTailInts(t, ns).tailIndex == t.tailIndex
    ensures WithTailInts(t, ns).Head() == t.Head()
    ensures WithTailInts(t, ns).url == t.Head() + Format(ns[|ns| - 1])
    decreases |ns|
  {
    var u := WithTailInt(t, ns[0]).0;
    WithTailIntText(t, ns[0]);
    if |ns| > 1 {
      KeepHead(u, ns[1..]);
    }
  }
}
