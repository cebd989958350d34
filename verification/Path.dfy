/** Path normalization in one buffer, against a stack of components. */
module Path {
  import opened Bytes
  import opened Status

  const PATH_MAX := 255
  const MAX_LEVELS := 16
  const SLASH: Byte := 0x2f
  const DOT: Byte := 0x2e
  const BACKSLASH: Byte := 0x5c

  /** A C string without its terminator. */
  type Text = t: seq<Byte> | forall i :: 0 <= i < |t| ==> t[i] != 0 witness []

  predicate InvalidByte(b: Byte) {
    b < 0x20 || b == 0x7f || b == BACKSLASH
  }

  predicate HasInvalid(c: seq<Byte>) {
    exists i :: 0 <= i < |c| && InvalidByte(c[i])
  }

  // ----- what the result is ---------------------------------------------------------------------

  /** The first position from `i` on that is not a slash. */
  function SkipSlashes(p: seq<Byte>, i: nat): (j: nat)
    requires i <= |p|
    ensures i <= j <= |p| && (forall k :: i <= k < j ==> p[k] == SLASH) && (j < |p| ==> p[j] != SLASH)
    decreases |p| - i
  {
    if i < |p| && p[i] == SLASH then SkipSlashes(p, i + 1) else i
  }

  /** The first slash from `i` on, or the end. */
  function NameEnd(p: seq<Byte>, i: nat): (j: nat)
    requires i <= |p|
    ensures i <= j <= |p| && (forall k :: i <= k < j ==> p[k] != SLASH) && (j < |p| ==> p[j] == SLASH)
    decreases |p| - i
  {
    if i < |p| && p[i] != SLASH then NameEnd(p, i + 1) else i
  }

  /** The names between slashes, empty ones left out. */
  function Components(p: seq<Byte>, i: nat): seq<seq<Byte>>
    requires i <= |p|
    decreases |p| - i
  {
    var begin := SkipSlashes(p, i);
    if begin == |p| then [] else [p[begin..NameEnd(p, begin)]] + Components(p, NameEnd(p, begin))
  }

  function Render(stack: seq<seq<Byte>>): (text: seq<Byte>)
    ensures |text| >= 1
  {
    if stack == [] then [SLASH] else Body(stack)
  }

  function Body(stack: seq<seq<Byte>>): seq<Byte> {
    if stack == [] then [] else Body(stack[..|stack| - 1]) + [SLASH] + stack[|stack| - 1]
  }

  /** One component applied to the stack of names so far. */
  function Push(stack: seq<seq<Byte>>, c: seq<Byte>, capacity: nat): Result<seq<seq<Byte>>> {
    if c == [DOT] then Success(stack)
    else if c == [DOT, DOT] then Success(if stack == [] then [] else stack[..|stack| - 1])
    else if |stack| >= MAX_LEVELS - 1 then Failure(OutOfRange)
    else if HasInvalid(c) then Failure(InvalidArgument)
    else if |Body(stack + [c])| > PATH_MAX || |Body(stack + [c])| >= capacity then Failure(OutOfRange)
    else Success(stack + [c])
  }

  function Fold(stack: seq<seq<Byte>>, cs: seq<seq<Byte>>, capacity: nat): Result<seq<seq<Byte>>>
    decreases |cs|
  {
    if cs == [] then Success(stack)
    else
      match Push(stack, cs[0], capacity)
      case Failure(error) => Failure(error)
      case Success(next) => Fold(next, cs[1..], capacity)
  }

  /** The current directory counts only for relative paths. */
  function Normal(cwd: Text, path: Text, capacity: nat): Result<seq<seq<Byte>>> {
    if path == [] || path[0] == SLASH then Fold([], Components(path, 0), capacity)
    else
      match Fold([], Components(cwd, 0), capacity)
      case Failure(error) => Failure(error)
      case Success(stack) => Fold(stack, Components(path, 0), capacity)
  }

  // ----- what the result looks like ---------------------------------------------------------------

  predicate CanonicalName(c: seq<Byte>) {
    c != [] && c != [DOT] && c != [DOT, DOT] && SLASH !in c && !HasInvalid(c)
  }

  ghost predicate Canonical(stack: seq<seq<Byte>>, capacity: nat) {
    && |stack| < MAX_LEVELS && (forall i :: 0 <= i < |stack| ==> CanonicalName(stack[i]))
    && |Body(stack)| <= PATH_MAX && (stack == [] || |Body(stack)| < capacity)
  }

  ghost predicate Names(cs: seq<seq<Byte>>) {
    forall i :: 0 <= i < |cs| ==> cs[i] != [] && SLASH !in cs[i]
  }

  lemma {:induction false} ComponentsAreNames(p: seq<Byte>, i: nat)
    requires i <= |p|
    ensures Names(Components(p, i))
    decreases |p| - i
  {
    var begin := SkipSlashes(p, i);
    if begin < |p| {
      ComponentsAreNames(p, NameEnd(p, begin));
    }
  }

  lemma {:induction false} FoldIsCanonical(stack: seq<seq<Byte>>, cs: seq<seq<Byte>>, capacity: nat)
    requires Canonical(stack, capacity) && Names(cs) && Fold(stack, cs, capacity).Success?
    ensures Canonical(Fold(stack, cs, capacity).value, capacity)
    decreases |cs|
  {
    if cs != [] {
      PopIsShorter(stack);
      FoldIsCanonical(Push(stack, cs[0], capacity).value, cs[1..], capacity);
    }
  }

  lemma PopIsShorter(stack: seq<seq<Byte>>)
    ensures stack != [] ==> |Body(stack[..|stack| - 1])| <= |Body(stack)|
  {}

  /** A canonical stack is exactly what its own text splits into. */
  lemma {:induction false} RenderSplits(stack: seq<seq<Byte>>, suffix: seq<Byte>)
    requires Names(stack) && (suffix == [] || suffix[0] == SLASH)
    ensures Components(Body(stack) + suffix, 0) == stack + Components(suffix, 0)
    decreases |stack|
  {
    hide Components;
    if stack == [] {
      assert Body(stack) + suffix == suffix;
    } else {
      var front, last := stack[..|stack| - 1], stack[|stack| - 1];
      var rest := [SLASH] + last + suffix;
      assert Body(stack) + suffix == Body(front) + rest;
      RenderSplits(front, rest);
      NameThenRest(last, suffix);
      assert front + ([last] + Components(suffix, 0)) == stack + Components(suffix, 0);
    }
  }

  lemma NameThenRest(name: seq<Byte>, suffix: seq<Byte>)
    requires name != [] && SLASH !in name && (suffix == [] || suffix[0] == SLASH)
    ensures Components([SLASH] + name + suffix, 0) == [name] + Components(suffix, 0)
  {
    var p := [SLASH] + name + suffix;
    assert p[1] == name[0];
    assert SkipSlashes(p, 0) == 1;
    NameEndIs(p, 1, 1 + |name|);
    assert p[1..1 + |name|] == name;
    ComponentsShift(p, suffix, 1 + |name|, 0);
  }

  lemma {:induction false} NameEndIs(p: seq<Byte>, i: nat, end: nat)
    requires i <= end <= |p| && (forall k :: i <= k < end ==> p[k] != SLASH) && (end == |p| || p[end] == SLASH)
    ensures NameEnd(p, i) == end
    decreases end - i
  {
    if i < end {
      NameEndIs(p, i + 1, end);
    }
  }

  /** The split of a suffix does not depend on where it stands. */
  lemma {:induction false} ComponentsShift(p: seq<Byte>, q: seq<Byte>, at: nat, i: nat)
    requires i <= |q| && at + |q| == |p| && p[at..] == q
    ensures Components(p, at + i) == Components(q, i)
    decreases |q| - i
  {
    SkipShift(p, q, at, i);
    var begin := SkipSlashes(q, i);
    if begin < |q| {
      NameShift(p, q, at, begin);
      var end := NameEnd(q, begin);
      SliceShift(p, at, begin, end);
      ComponentsShift(p, q, at, end);
    }
  }

  lemma SliceShift(p: seq<Byte>, at: nat, lo: nat, hi: nat)
    requires lo <= hi && at + hi <= |p|
    ensures p[at + lo..at + hi] == p[at..][lo..hi]
  {}

  lemma {:induction false} SkipShift(p: seq<Byte>, q: seq<Byte>, at: nat, i: nat)
    requires i <= |q| && at + |q| == |p| && p[at..] == q
    ensures SkipSlashes(p, at + i) == at + SkipSlashes(q, i)
    decreases |q| - i
  {
    if i < |q| {
      assert p[at + i] == q[i];
      SkipShift(p, q, at, i + 1);
    }
  }

  lemma {:induction false} NameShift(p: seq<Byte>, q: seq<Byte>, at: nat, i: nat)
    requires i <= |q| && at + |q| == |p| && p[at..] == q
    ensures NameEnd(p, at + i) == at + NameEnd(q, i)
    decreases |q| - i
  {
    if i < |q| {
      assert p[at + i] == q[i];
      NameShift(p, q, at, i + 1);
    }
  }

  /** Folding the names of a canonical stack rebuilds it, one push after the other. */
  lemma {:induction false} FoldRebuilds(stack: seq<seq<Byte>>, k: nat, capacity: nat)
    requires Canonical(stack, capacity) && k <= |stack|
    ensures Fold(stack[..k], stack[k..], capacity) == Success(stack)
    decreases |stack| - k
  {
    if k == |stack| {
      assert stack[..k] == stack;
    } else {
      assert stack[..k] + [stack[k]] == stack[..k + 1] && stack[k..][1..] == stack[k + 1..];
      BodyGrows(stack, k + 1);
      FoldRebuilds(stack, k + 1, capacity);
    }
  }

  lemma {:induction false} BodyGrows(stack: seq<seq<Byte>>, k: nat)
    requires k <= |stack|
    ensures |Body(stack[..k])| <= |Body(stack)|
    decreases |stack|
  {
    if k == |stack| {
      assert stack[..k] == stack;
    } else {
      BodyGrows(stack[..|stack| - 1], k);
      assert stack[..|stack| - 1][..k] == stack[..k];
    }
  }

  /** What was normalized is again a string: no name contains a terminator. */
  lemma {:induction false} CanonicalIsText(stack: seq<seq<Byte>>, capacity: nat)
    requires Canonical(stack, capacity)
    ensures forall i :: 0 <= i < |Body(stack)| ==> Body(stack)[i] != 0
    decreases |stack|
  {
    if stack != [] {
      PopIsShorter(stack);
      CanonicalIsText(stack[..|stack| - 1], capacity);
      var name := stack[|stack| - 1];
      forall i | 0 <= i < |name| ensures name[i] != 0 {
        assert !InvalidByte(name[i]);
      }
    }
  }

  /** Normalizing a normalized path changes nothing, whatever the current directory. */
  lemma NormalIsIdempotent(cwd: Text, path: Text, other: Text, text: Text, capacity: nat)
    requires Normal(cwd, path, capacity).Success? && text == Render(Normal(cwd, path, capacity).value)
    ensures Normal(other, text, capacity) == Normal(cwd, path, capacity)
  {
    NormalIsCanonical(cwd, path, capacity);
    var stack := Normal(cwd, path, capacity).value;
    if stack == [] {
      assert Components(text, 0) == [];
    } else {
      RenderSplits(stack, []);
      assert Body(stack) + [] == text && stack + Components([], 0) == stack;
      BodyStarts(stack);
    }
    FoldRebuilds(stack, 0, capacity);
    assert stack[..0] == [] && stack[0..] == stack;
  }

  lemma {:induction false} BodyStarts(stack: seq<seq<Byte>>)
    requires stack != []
    ensures |Body(stack)| > 0 && Body(stack)[0] == SLASH
    decreases |stack|
  {
    if |stack| > 1 {
      BodyStarts(stack[..|stack| - 1]);
    } else {
      assert stack[..0] == [];
    }
  }

  lemma NormalIsCanonical(cwd: Text, path: Text, capacity: nat)
    requires Normal(cwd, path, capacity).Success?
    ensures Canonical(Normal(cwd, path, capacity).value, capacity)
  {
    ComponentsAreNames(cwd, 0);
    ComponentsAreNames(path, 0);
    if path != [] && path[0] != SLASH {
      FoldIsCanonical([], Components(cwd, 0), capacity);
      FoldIsCanonical(Fold([], Components(cwd, 0), capacity).value, Components(path, 0), capacity);
    } else {
      FoldIsCanonical([], Components(path, 0), capacity);
    }
  }

  // ----- the laws that make the result ------------------------------------------------------------

  /** A path is split at its slashes, and at nothing else. */
  lemma {:induction false} SplitsAtSlash(p: seq<Byte>, q: seq<Byte>, i: nat)
    requires i <= |p|
    ensures Components(p + [SLASH] + q, i) == Components(p, i) + Components(q, 0)
    decreases |p| - i
  {
    hide Components;
    var all, begin := p + [SLASH] + q, SkipSlashes(p, i);
    SkipInFront(p, q, i);
    if begin == |p| {
      assert all[|p|..] == [SLASH] + q && all[|p| + 1..] == q;
      ComponentsShift(all, q, |p| + 1, 0);
      FromBegin(all, i, |p|);
      FromBegin(all, |p|, |p| + 1);
      NothingLeft(p, i);
      assert [] + Components(q, 0) == Components(q, 0);
    } else {
      var end := NameEnd(p, begin);
      NameEndIs(all, begin, end);
      SplitsAtSlash(p, q, end);
      OneMore(p, i);
      OneMore(all, i);
      assert all[begin..end] == p[begin..end];
      assert [p[begin..end]] + (Components(p, end) + Components(q, 0)) == Components(p, i) + Components(q, 0);
    }
  }

  lemma {:induction false} SkipInFront(p: seq<Byte>, q: seq<Byte>, i: nat)
    requires i <= |p|
    ensures var all, begin := p + [SLASH] + q, SkipSlashes(p, i);
      if begin < |p| then SkipSlashes(all, i) == begin
      else SkipSlashes(all, i) == SkipSlashes(all, |p|) == SkipSlashes(all, |p| + 1)
    decreases |p| - i
  {
    if i < |p| {
      SkipInFront(p, q, i + 1);
    }
  }

  lemma FromBegin(p: seq<Byte>, i: nat, j: nat)
    requires i <= |p| && j <= |p| && SkipSlashes(p, i) == SkipSlashes(p, j)
    ensures Components(p, i) == Components(p, j)
  {}

  lemma NothingLeft(p: seq<Byte>, i: nat)
    requires i <= |p| && SkipSlashes(p, i) == |p|
    ensures Components(p, i) == []
  {}

  lemma OneMore(p: seq<Byte>, i: nat)
    requires i <= |p| && SkipSlashes(p, i) < |p|
    ensures var begin := SkipSlashes(p, i);
      Components(p, i) == [p[begin..NameEnd(p, begin)]] + Components(p, NameEnd(p, begin))
  {}

  /** A piece without a slash is one component, and an empty one is none. */
  lemma PieceIsComponent(p: seq<Byte>)
    requires SLASH !in p
    ensures Components(p, 0) == if p == [] then [] else [p]
  {
    if p != [] {
      NameEndIs(p, 0, |p|);
      assert p[0..|p|] == p && Components(p, |p|) == [];
    }
  }

  lemma {:induction false} FoldAppends(stack: seq<seq<Byte>>, a: seq<seq<Byte>>, b: seq<seq<Byte>>, capacity: nat)
    ensures Fold(stack, a + b, capacity) ==
            match Fold(stack, a, capacity)
            case Failure(error) => Failure(error)
            case Success(next) => Fold(next, b, capacity)
    decreases |a|
  {
    hide Push;
    if a == [] {
      assert a + b == b;
    } else {
      assert (a + b)[0] == a[0] && (a + b)[1..] == a[1..] + b;
      match Push(stack, a[0], capacity)
      case Failure(_) =>
      case Success(next) => FoldAppends(next, a[1..], b, capacity);
    }
  }

  /** A relative path means the same as the current directory, a slash and the path; an absolute one is on its own. */
  lemma RelativeIsJoined(cwd: Text, path: Text, other: Text, capacity: nat)
    requires path != [] && cwd != [] && cwd[0] == SLASH
    ensures path[0] == SLASH ==> Normal(cwd, path, capacity) == Normal(other, path, capacity)
    ensures path[0] != SLASH ==>
            Normal(cwd, path, capacity) == Normal(other, cwd + [SLASH] + path, capacity)
  {
    SplitsAtSlash(cwd, path, 0);
    FoldAppends([], Components(cwd, 0), Components(path, 0), capacity);
  }

  /** A dot, wherever it stands, might as well not be there. */
  lemma DotVanishes(stack: seq<seq<Byte>>, a: seq<seq<Byte>>, b: seq<seq<Byte>>, capacity: nat)
    ensures Fold(stack, a + [[0x2e]] + b, capacity) == Fold(stack, a + b, capacity)
  {
    FoldAppends(stack, a, b, capacity);
    FoldAppends(stack, a, [[0x2e]] + b, capacity);
    assert a + [[0x2e]] + b == a + ([[0x2e]] + b) && ([[DOT]] + b)[1..] == b;
  }

  /** A name that is accepted and two dots behind it cancel. */
  lemma NameAndUpCancel(stack: seq<seq<Byte>>, a: seq<seq<Byte>>, c: seq<Byte>, b: seq<seq<Byte>>, capacity: nat)
    requires c != [0x2e] && c != [0x2e, 0x2e] && Fold(stack, a + [c], capacity).Success?
    ensures Fold(stack, a + [c] + [[0x2e, 0x2e]] + b, capacity) == Fold(stack, a + b, capacity)
  {
    hide HasInvalid, Body;
    FoldAppends(stack, a, b, capacity);
    FoldAppends(stack, a, [c], capacity);
    FoldAppends(stack, a, [c] + ([[0x2e, 0x2e]] + b), capacity);
    assert a + [c] + [[0x2e, 0x2e]] + b == a + ([c] + ([[0x2e, 0x2e]] + b));
    UpCancels(Fold(stack, a, capacity).value, c, b, capacity);
  }

  lemma UpCancels(s: seq<seq<Byte>>, c: seq<Byte>, b: seq<seq<Byte>>, capacity: nat)
    requires c != [0x2e] && c != [0x2e, 0x2e] && Fold(s, [c], capacity).Success?
    ensures Fold(s, [c] + ([[0x2e, 0x2e]] + b), capacity) == Fold(s, b, capacity)
  {
    hide HasInvalid, Body;
    assert [c][1..] == [] && Push(s, c, capacity).Success?;
    assert ([c] + ([[0x2e, 0x2e]] + b))[1..] == [[0x2e, 0x2e]] + b && ([[0x2e, 0x2e]] + b)[1..] == b;
    assert (s + [c])[..|s|] == s;
  }

  /** Two dots at the root stay there. */
  lemma UpAtRoot(b: seq<seq<Byte>>, capacity: nat)
    ensures Fold([], [[0x2e, 0x2e]] + b, capacity) == Fold([], b, capacity)
  {
    assert ([[0x2e, 0x2e]] + b)[1..] == b;
  }

  /** No control byte, no delete, no backslash. */
  predicate Printable(c: seq<Byte>) {
    forall i :: 0 <= i < |c| ==> c[i] >= 0x20 && c[i] != 0x7f && c[i] != 0x5c
  }

  /** Whether one more name is accepted, and how it is refused: too deep, a bad byte, too long. */
  lemma NameAnswers(stack: seq<seq<Byte>>, c: seq<Byte>, capacity: nat)
    requires c != [0x2e] && c != [0x2e, 0x2e]
    ensures var length := |Body(stack)| + 1 + |c|;
      Push(stack, c, capacity) ==
      if |stack| >= 15 then Failure(OutOfRange)
      else if !Printable(c) then Failure(InvalidArgument)
      else if length > 255 || length >= capacity then Failure(OutOfRange)
      else Success(stack + [c])
  {
    assert (stack + [c])[..|stack|] == stack;
    if HasInvalid(c) {
      var i :| 0 <= i < |c| && InvalidByte(c[i]);
      assert !(c[i] >= 0x20 && c[i] != 0x7f && c[i] != 0x5c);
    } else {
      forall i | 0 <= i < |c| ensures c[i] >= 0x20 && c[i] != 0x7f && c[i] != 0x5c {
        assert !InvalidByte(c[i]);
      }
    }
  }

  // ----- the buffer -------------------------------------------------------------------------------

  /** The output buffer, its length so far and where each component started. */
  class Builder {
    const buffer: array<Byte>
    const starts: array<nat>
    var outputLength: nat
    var depth: nat
    // the components in the buffer
    ghost var stack: seq<seq<Byte>>

    ghost predicate Valid()
      reads this, buffer, starts
    {
      && buffer.Length >= 2 && starts.Length == MAX_LEVELS - 1
      && depth == |stack| < MAX_LEVELS && outputLength == |Render(stack)| < buffer.Length && outputLength <= PATH_MAX
      && buffer[..outputLength] == Render(stack) && buffer[outputLength] == 0
      && (forall i :: 0 <= i < depth ==> starts[i] == |Render(stack[..i])|)
      && Names(stack)
    }

    constructor (capacity: nat)
      requires capacity >= 2
      ensures Valid() && stack == [] && buffer.Length == capacity && fresh(buffer) && fresh(starts)
    {
      buffer := new Byte[capacity](i => if i == 0 then SLASH else 0);
      starts := new nat[MAX_LEVELS - 1](_ => 0);
      outputLength, depth, stack := 1, 0, [];
      new;
      assert buffer[..1] == [SLASH];
    }

    /** Adds, drops or skips one component; a drop restores the buffer to what it was before the add. */
    method AppendComponent(c: seq<Byte>) returns (status: Status)
      requires Valid() && c != [] && SLASH !in c
      modifies this`outputLength, this`depth, this`stack, buffer, starts
      ensures Valid()
      ensures match Push(old(stack), c, buffer.Length)
              case Success(next) => status == Ok && stack == next
              case Failure(error) => status == error != Ok && stack == old(stack)
    {
      hide Render, Body;
      if |c| == 1 && c[0] == DOT {
        return Ok;
      }
      if |c| == 2 && c[0] == DOT && c[1] == DOT {
        if depth != 0 {
          DropLast();
        }
        return Ok;
      }
      if depth >= MAX_LEVELS - 1 {
        return OutOfRange;
      }
      for index := 0 to |c|
        invariant forall i :: 0 <= i < index ==> !InvalidByte(c[i])
      {
        if InvalidByte(c[index]) {
          return InvalidArgument;
        }
      }
      var start := outputLength;
      var begin := if start != 1 then start + 1 else start;
      BodyLength(stack, c);
      if begin > PATH_MAX || |c| > PATH_MAX - begin || begin + |c| >= buffer.Length {
        return OutOfRange;
      }
      AddLast(c, begin);
      status := Ok;
    }

    method DropLast()
      requires Valid() && depth > 0
      modifies this`outputLength, this`depth, this`stack, buffer
      ensures Valid() && stack == old(stack)[..|old(stack)| - 1]
    {
      ghost var shorter := stack[..|stack| - 1];
      RenderPrefix(stack);
      depth := depth - 1;
      outputLength := starts[depth];
      assert buffer[..outputLength] == Render(stack)[..outputLength] == Render(shorter);
      buffer[outputLength] := 0;
      assert forall i :: 0 <= i < depth ==> stack[..i] == shorter[..i];
      stack := shorter;
    }

    method AddLast(c: seq<Byte>, begin: nat)
      requires Valid() && c != [] && SLASH !in c && depth < MAX_LEVELS - 1
      requires begin == |Body(stack + [c])| - |c|
               && begin == (if outputLength != 1 then outputLength + 1 else outputLength)
      requires |Body(stack + [c])| <= PATH_MAX && |Body(stack + [c])| < buffer.Length
      modifies this`outputLength, this`depth, this`stack, buffer, starts
      ensures Valid() && stack == old(stack) + [c]
    {
      ghost var longer := stack + [c];
      RenderExtends(stack, c);
      starts[depth] := outputLength;
      if outputLength != 1 {
        buffer[outputLength] := SLASH;
      }
      forall i | 0 <= i < |c| {
        buffer[begin + i] := c[i];
      }
      assert buffer[..begin] == Render(longer)[..begin];
      outputLength := begin + |c|;
      buffer[outputLength] := 0;
      assert buffer[..outputLength] == Render(longer);
      assert longer[..depth] == stack && forall i :: 0 <= i < depth ==> longer[..i] == stack[..i];
      depth := depth + 1;
      stack := longer;
    }

    /** All components of a path, one after the other. */
    method ConsumePath(p: Text) returns (status: Status)
      requires Valid()
      modifies this`outputLength, this`depth, this`stack, buffer, starts
      ensures Valid()
      ensures match Fold(old(stack), Components(p, 0), buffer.Length)
              case Success(end) => status == Ok && stack == end
              case Failure(error) => status == error != Ok
    {
      var cursor := 0;
      while cursor < |p|
        invariant Valid() && cursor <= |p|
        invariant Fold(stack, Components(p, cursor), buffer.Length) == Fold(old(stack), Components(p, 0), buffer.Length)
        decreases |p| - cursor
      {
        ghost var from := cursor;
        while cursor < |p| && p[cursor] == SLASH
          invariant from <= cursor <= |p| && SkipSlashes(p, cursor) == SkipSlashes(p, from)
        {
          cursor := cursor + 1;
        }
        var begin := cursor;
        while cursor < |p| && p[cursor] != SLASH
          invariant begin <= cursor <= |p| && NameEnd(p, cursor) == NameEnd(p, begin)
          invariant forall k :: begin <= k < cursor ==> p[k] != SLASH
        {
          cursor := cursor + 1;
        }
        assert begin == SkipSlashes(p, from) && cursor == NameEnd(p, begin);
        if cursor != begin {
          ghost var rest := Components(p, cursor);
          assert Components(p, from) == [p[begin..cursor]] + rest && ([p[begin..cursor]] + rest)[1..] == rest;
          status := AppendComponent(p[begin..cursor]);
          if status.Failed() {
            return;
          }
        }
      }
      status := Ok;
    }
  }

  lemma RenderPrefix(stack: seq<seq<Byte>>)
    requires stack != []
    ensures var shorter := stack[..|stack| - 1];
      |Render(shorter)| <= |Render(stack)| && Render(stack)[..|Render(shorter)|] == Render(shorter)
  {
    BodyStarts(stack);
  }

  lemma BodyLength(stack: seq<seq<Byte>>, c: seq<Byte>)
    requires Names(stack)
    ensures |Body(stack + [c])| == (if |Render(stack)| != 1 then |Render(stack)| + 1 else |Render(stack)|) + |c|
  {
    assert (stack + [c])[..|stack|] == stack;
  }

  lemma RenderExtends(stack: seq<seq<Byte>>, c: seq<Byte>)
    requires Names(stack) && c != []
    ensures Render(stack + [c]) == Body(stack + [c]) == Body(stack) + [SLASH] + c
    ensures |Render(stack)| == 1 <==> stack == []
  {
    assert (stack + [c])[..|stack|] == stack;
  }

  /** Normalizes into a buffer of the given capacity; a failure leaves an empty string. */
  method Normalize(cwd: Text, path: Text, capacity: nat) returns (status: Status, result: array<Byte>)
    ensures capacity == 0 ==> status == InvalidArgument
    ensures cwd == [] || cwd[0] != SLASH ==> status == InvalidArgument
    ensures capacity > 0 && cwd != [] && cwd[0] == SLASH && (|cwd| > PATH_MAX || |path| > PATH_MAX) ==>
            status == OutOfRange
    ensures capacity > 0 && cwd != [] && cwd[0] == SLASH && |cwd| <= PATH_MAX && |path| <= PATH_MAX ==>
            if path == [] || capacity < 2 then status == InvalidArgument
            else
              match Normal(cwd, path, capacity)
              case Failure(error) => status == error != Ok
              case Success(stack) =>
                && status == Ok && |Render(stack)| < result.Length == capacity
                && result[..|Render(stack)|] == Render(stack) && result[|Render(stack)|] == 0
    ensures status != Ok && capacity > 0 ==> result.Length == capacity && result[0] == 0
  {
    result := new Byte[capacity](_ => 0);
    if capacity == 0 {
      return InvalidArgument, result;
    }
    if cwd == [] || cwd[0] != SLASH {
      return InvalidArgument, result;
    }
    if |cwd| > PATH_MAX || |path| > PATH_MAX {
      return OutOfRange, result;
    }
    if path == [] || capacity < 2 {
      return InvalidArgument, result;
    }
    var builder := new Builder(capacity);
    result := builder.buffer;
    if path[0] != SLASH {
      status := builder.ConsumePath(cwd);
      if status.Failed() {
        result[0] := 0;
        return;
      }
    }
    status := builder.ConsumePath(path);
    if status.Failed() {
      result[0] := 0;
    }
  }
}
