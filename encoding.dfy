/**
 * Placeholder substitution of ComfySQL (`ComfySQL::encode`), as pure functions.
 *
 * A query template is scanned left to right; the k-th `?` (counting from 0) is
 * replaced by the k-th argument, quoted and escaped; all other text is copied.
 * The replacement text is never scanned again. The escape function of the
 * database connection is a parameter `esc`.
 */
module Encoding {
  import opened Wrappers

  /** The placeholder marker. */
  const Marker: char := '?'

  /**
   * One entry of the argument list. A PHP scalar is given by its string
   * conversion (PHP `null` converts to the empty string); a PHP array of
   * scalars is given by the string conversions of its elements, in order.
   */
  datatype Arg = Scalar(v: string) | List(vs: seq<string>)

  /** The argument read for placeholder number p. Reading past the end of the
      argument list yields PHP `null`, which the escape call converts to "". */
  function ArgAt(args: seq<Arg>, p: nat): Arg {
    if p < |args| then args[p] else Scalar("")
  }

  /** `"` + esc(v) + `"`: one quoted, escaped literal. */
  function Quote(v: string, esc: string -> string): string {
    "\"" + esc(v) + "\""
  }

  /** Every element quoted, in order (the `array_map`). */
  function QuoteAll(vs: seq<string>, esc: string -> string): (r: seq<string>)
    ensures |r| == |vs|
    ensures forall k :: 0 <= k < |vs| ==> r[k] == Quote(vs[k], esc)
  {
    if vs == [] then [] else [Quote(vs[0], esc)] + QuoteAll(vs[1..], esc)
  }

  /** PHP's `implode(sep, parts)`: the parts with `sep` between neighbours. */
  function Join(sep: string, parts: seq<string>): string
    decreases |parts|
  {
    if |parts| == 0 then ""
    else if |parts| == 1 then parts[0]
    else parts[0] + sep + Join(sep, parts[1..])
  }

  /** The text that replaces one placeholder for argument `a`. */
  function Substitution(a: Arg, esc: string -> string): string {
    match a
    case Scalar(v) => Quote(v, esc)
    case List(vs) => Join(",", QuoteAll(vs, esc))
  }

  /** The substitution rule of a connection, as one function of the argument. */
  function Substituter(esc: string -> string): Arg -> string {
    a => Substitution(a, esc)
  }

  /** Number of placeholders in a template. */
  function Count(t: string): nat {
    if t == [] then 0 else (if t[0] == Marker then 1 else 0) + Count(t[1..])
  }

  /**
   * The output of the scan over template `t` when the counter stands at `p`:
   * each `?` is replaced by `sub` of argument p, p + 1, ... in turn, and any
   * other character is copied.
   */
  function Scan(t: string, args: seq<Arg>, p: nat, sub: Arg -> string): string {
    if t == [] then ""
    else if t[0] == Marker then sub(ArgAt(args, p)) + Scan(t[1..], args, p + 1, sub)
    else [t[0]] + Scan(t[1..], args, p, sub)
  }

  /** `encode(query, args)`: a `null` argument list leaves the template as it
      is; otherwise the scan starts with the counter at 0. */
  function Encoded(t: string, args: Option<seq<Arg>>, esc: string -> string): string {
    match args
    case None => t
    case Some(a) => Scan(t, a, 0, Substituter(esc))
  }

  // ---------------------------------------------------------------------
  // An independent description of the output: template segments
  // interleaved with the substitutions.

  /** The template split at every `?`: the literal text between placeholders. */
  function Segments(t: string): (r: seq<string>)
    ensures |r| == Count(t) + 1
    ensures forall k :: 0 <= k < |r| ==> Marker !in r[k]
  {
    if t == [] then [""]
    else if t[0] == Marker then [""] + Segments(t[1..])
    else
      var s := Segments(t[1..]);
      [[t[0]] + s[0]] + s[1..]
  }

  /** The substitutions for n placeholders, the first one using argument p. */
  function Substitutions(args: seq<Arg>, p: nat, n: nat, sub: Arg -> string): (r: seq<string>)
    ensures |r| == n
    ensures forall k :: 0 <= k < n ==> r[k] == sub(ArgAt(args, p + k))
    decreases n
  {
    if n == 0 then [] else [sub(ArgAt(args, p))] + Substitutions(args, p + 1, n - 1, sub)
  }

  /** segs[0] + subs[0] + segs[1] + subs[1] + ... + segs[n]. */
  function Interleave(segs: seq<string>, subs: seq<string>): string
    requires |segs| == |subs| + 1
    decreases |subs|
  {
    if |subs| == 0 then segs[0]
    else segs[0] + subs[0] + Interleave(segs[1..], subs[1..])
  }

  /** Joining the segments back with `?` gives the template: nothing outside
      the placeholders is lost or changed. */
  lemma {:induction false} SegmentsJoin(t: string)
    ensures Join([Marker], Segments(t)) == t
  {
    if t == [] {
    } else if t[0] == Marker {
      SegmentsJoin(t[1..]);
      var s := Segments(t[1..]);
      assert Segments(t) == [""] + s;
      assert ([""] + s)[1..] == s;
      assert t == [t[0]] + t[1..];
    } else {
      SegmentsJoin(t[1..]);
      var s := Segments(t[1..]);
      JoinExtendHead([t[0]], s);
      assert t == [t[0]] + t[1..];
    }
  }

  /** Prefixing the first part prefixes the joined text. */
  lemma {:induction false} JoinExtendHead(x: string, parts: seq<string>)
    requires |parts| > 0
    ensures Join([Marker], [x + parts[0]] + parts[1..]) == x + Join([Marker], parts)
  {
    var ps := [x + parts[0]] + parts[1..];
    assert ps[1..] == parts[1..];
    if |parts| == 1 {
    } else {
      assert Join([Marker], ps) == (x + parts[0]) + [Marker] + Join([Marker], parts[1..]);
    }
  }

  /** Prefixing the first segment prefixes the interleaved text. */
  lemma {:induction false} InterleaveExtendHead(x: string, segs: seq<string>, subs: seq<string>)
    requires |segs| == |subs| + 1
    ensures Interleave([x + segs[0]] + segs[1..], subs) == x + Interleave(segs, subs)
  {
    var ss := [x + segs[0]] + segs[1..];
    assert ss[1..] == segs[1..];
  }

  /**
   * The scan's output is the template's segments interleaved with the
   * substitutions of arguments p, p + 1, ...: text outside the placeholders
   * is copied unchanged, and since a substitution is never rescanned, a `?`
   * inside a substituted value neither consumes an argument nor is replaced.
   */
  lemma {:induction false} ScanIsInterleave(t: string, args: seq<Arg>, p: nat, sub: Arg -> string)
    ensures Scan(t, args, p, sub) == Interleave(Segments(t), Substitutions(args, p, Count(t), sub))
    decreases |t|
  {
    if t == [] {
    } else if t[0] == Marker {
      ScanIsInterleave(t[1..], args, p + 1, sub);
      var segs := [""] + Segments(t[1..]);
      var subs := Substitutions(args, p, Count(t), sub);
      assert segs[1..] == Segments(t[1..]);
      assert subs[1..] == Substitutions(args, p + 1, Count(t[1..]), sub);
    } else {
      ScanIsInterleave(t[1..], args, p, sub);
      var s := Segments(t[1..]);
      InterleaveExtendHead([t[0]], s, Substitutions(args, p, Count(t), sub));
    }
  }

  /** The encoded query, for a non-null argument list, is the template's
      segments interleaved with the substitutions of arguments 0, 1, .... */
  lemma EncodedIsInterleave(t: string, args: Option<seq<Arg>>, esc: string -> string)
    ensures args.Some? ==>
      Encoded(t, args, esc) == Interleave(Segments(t), Substitutions(args.value, 0, Count(t), Substituter(esc)))
  {
    if args.Some? {
      ScanIsInterleave(t, args.value, 0, Substituter(esc));
    }
  }

  /**
   * The counter advances exactly once per placeholder: with at least as many
   * arguments as placeholders, arguments after the last used one have no
   * effect on the output.
   */
  lemma {:induction false} ExtraArgsIgnored(t: string, args: seq<Arg>, extra: seq<Arg>, p: nat, sub: Arg -> string)
    requires p + Count(t) <= |args|
    ensures Scan(t, args + extra, p, sub) == Scan(t, args, p, sub)
    decreases |t|
  {
    if t == [] {
    } else if t[0] == Marker {
      assert ArgAt(args + extra, p) == ArgAt(args, p);
      ExtraArgsIgnored(t[1..], args, extra, p + 1, sub);
    } else {
      ExtraArgsIgnored(t[1..], args, extra, p, sub);
    }
  }

  /** One step of the scan at position i of the template: the text emitted
      so far followed by the rest of the scan is the whole output. */
  lemma ScanStep(t: string, i: nat, args: seq<Arg>, p: nat, o: string, sub: Arg -> string)
    requires i < |t|
    requires o + Scan(t[i..], args, p, sub) == Scan(t, args, 0, sub)
    ensures t[i] == Marker ==>
      (o + sub(ArgAt(args, p))) + Scan(t[i + 1..], args, p + 1, sub) == Scan(t, args, 0, sub)
    ensures t[i] != Marker ==>
      (o + [t[i]]) + Scan(t[i + 1..], args, p, sub) == Scan(t, args, 0, sub)
  {
    assert t[i..][0] == t[i] && t[i..][1..] == t[i + 1..];
    if t[i] == Marker {
      var x, rest := sub(ArgAt(args, p)), Scan(t[i + 1..], args, p + 1, sub);
      assert Scan(t[i..], args, p, sub) == x + rest;
      assert o + (x + rest) == (o + x) + rest;
    } else {
      var rest := Scan(t[i + 1..], args, p, sub);
      assert Scan(t[i..], args, p, sub) == [t[i]] + rest;
      assert o + ([t[i]] + rest) == (o + [t[i]]) + rest;
    }
  }

  /** Text without a placeholder is copied as it is. */
  lemma {:induction false} ScanLiteral(x: string, args: seq<Arg>, p: nat, sub: Arg -> string)
    requires Marker !in x
    ensures Scan(x, args, p, sub) == x && Count(x) == 0
    decreases |x|
  {
    if x != [] {
      ScanLiteral(x[1..], args, p, sub);
    }
  }

  /** Placeholders of two texts add up. */
  lemma {:induction false} CountAppend(x: string, y: string)
    ensures Count(x + y) == Count(x) + Count(y)
    decreases |x|
  {
    if x == [] {
      assert x + y == y;
    } else {
      assert (x + y)[0] == x[0] && (x + y)[1..] == x[1..] + y;
      CountAppend(x[1..], y);
    }
  }

  /** The scan of x + y is the scan of x followed by the scan of y, which
      starts with the counter advanced by the placeholders of x. */
  lemma {:induction false} ScanAppend(x: string, y: string, args: seq<Arg>, p: nat, sub: Arg -> string)
    ensures Scan(x + y, args, p, sub) == Scan(x, args, p, sub) + Scan(y, args, p + Count(x), sub)
    decreases |x|
  {
    if x == [] {
      assert x + y == y;
    } else {
      var xy := x + y;
      assert xy[0] == x[0] && xy[1..] == x[1..] + y;
      var q := if x[0] == Marker then p + 1 else p;
      var head := if x[0] == Marker then sub(ArgAt(args, p)) else [x[0]];
      assert Scan(xy, args, p, sub) == head + Scan(x[1..] + y, args, q, sub);
      assert Scan(x, args, p, sub) == head + Scan(x[1..], args, q, sub);
      ScanAppend(x[1..], y, args, q, sub);
      var rest, tail := Scan(x[1..], args, q, sub), Scan(y, args, p + Count(x), sub);
      assert head + (rest + tail) == (head + rest) + tail;
    }
  }

  /** One placeholder between two literal texts takes argument p. */
  lemma OnePlaceholder(x: string, y: string, args: seq<Arg>, p: nat, sub: Arg -> string)
    requires Marker !in x && Marker !in y
    ensures Scan(x + [Marker] + y, args, p, sub) == x + sub(ArgAt(args, p)) + y
  {
    ScanLiteral(x, args, p, sub);
    assert Scan(x + [Marker], args, p, sub) == x + sub(ArgAt(args, p)) by {
      ScanAppend(x, [Marker], args, p, sub);
      assert [Marker][1..] == [];
    }
    assert Count(x + [Marker]) == 1 by {
      CountAppend(x, [Marker]);
    }
    ScanAppend(x + [Marker], y, args, p, sub);
    ScanLiteral(y, args, p + 1, sub);
  }

  /** Two placeholders take the first and the second argument, whatever the
      first substitution contains: a `?` in it is not scanned again. */
  lemma TwoPlaceholders(x: string, y: string, z: string, v: Arg, w: Arg, esc: string -> string)
    requires Marker !in x && Marker !in y && Marker !in z
    ensures Encoded(x + [Marker] + y + [Marker] + z, Some([v, w]), esc)
         == x + Substitution(v, esc) + y + Substitution(w, esc) + z
  {
    var args, sub := [v, w], Substituter(esc);
    var first := x + [Marker] + y;
    assert x + [Marker] + y + [Marker] + z == first + ([Marker] + z);
    ScanAppend(first, [Marker] + z, args, 0, sub);
    OnePlaceholder(x, y, args, 0, sub);
    assert Count(first) == 1 by {
      ScanLiteral(x, args, 0, sub);
      ScanLiteral(y, args, 0, sub);
      CountAppend(x + [Marker], y);
      CountAppend(x, [Marker]);
    }
    assert [Marker] + z == [] + [Marker] + z;
    OnePlaceholder([], z, args, 1, sub);
  }

  // ---------------------------------------------------------------------
  // The substitution of one argument.

  /** A placeholder past the end of the argument list reads PHP `null` and
      is substituted by the quoted escape of the empty string. */
  lemma MissingArgument(args: seq<Arg>, p: nat, esc: string -> string)
    requires |args| <= p
    ensures Substitution(ArgAt(args, p), esc) == "\"" + esc("") + "\""
  {
  }

  /** A one-element array is substituted exactly like the scalar it holds. */
  lemma SingletonListIsScalar(v: string, esc: string -> string)
    ensures Substitution(List([v]), esc) == Substitution(Scalar(v), esc)
  {
    assert QuoteAll([v], esc) == [Quote(v, esc)];
  }

  /** An empty array is substituted by the empty string. */
  lemma EmptyListIsEmpty(esc: string -> string)
    ensures Substitution(List([]), esc) == ""
  {
  }

  /** Joining two non-empty lists puts one separator between their joins. */
  lemma {:induction false} JoinAppend(sep: string, xs: seq<string>, ys: seq<string>)
    requires |xs| > 0 && |ys| > 0
    ensures Join(sep, xs + ys) == Join(sep, xs) + sep + Join(sep, ys)
    decreases |xs|
  {
    if |xs| == 1 {
      assert (xs + ys)[1..] == ys;
    } else {
      assert (xs + ys)[1..] == xs[1..] + ys;
      JoinAppend(sep, xs[1..], ys);
    }
  }

  /**
   * An array argument is the comma-joined quoted literals of its elements in
   * order: the substitution of xs + ys is that of xs, a comma, that of ys.
   */
  lemma ListSubstitutionAppend(xs: seq<string>, ys: seq<string>, esc: string -> string)
    requires |xs| > 0 && |ys| > 0
    ensures Substitution(List(xs + ys), esc) == Substitution(List(xs), esc) + "," + Substitution(List(ys), esc)
  {
    var qx, qy, q := QuoteAll(xs, esc), QuoteAll(ys, esc), QuoteAll(xs + ys, esc);
    assert q == qx + qy by {
      forall k | 0 <= k < |q| ensures q[k] == (qx + qy)[k] {
        if k < |xs| { assert (xs + ys)[k] == xs[k]; } else { assert (xs + ys)[k] == ys[k - |xs|]; }
      }
    }
    JoinAppend(",", qx, qy);
  }

  /** An array of three values: three quoted literals separated by commas. */
  lemma ListOfThree(a: string, b: string, c: string, esc: string -> string)
    ensures Substitution(List([a, b, c]), esc) == Quote(a, esc) + "," + Quote(b, esc) + "," + Quote(c, esc)
  {
    var q := QuoteAll([a, b, c], esc);
    assert q == [Quote(a, esc), Quote(b, esc), Quote(c, esc)];
    var bc := q[1..];
    assert |bc| == 2 && bc[0] == Quote(b, esc) && bc[1..] == [Quote(c, esc)];
    assert Join(",", bc[1..]) == Quote(c, esc);
    assert Join(",", bc) == Quote(b, esc) + "," + Quote(c, esc);
  }

  /** A scalar and then an array of three values in two placeholders, as in
      `set Active=? where ID in (?)`: the scalar's literal, then the three
      literals separated by commas, with the texts around them copied. */
  lemma ScalarThenListOfThree(x: string, y: string, z: string, v: string, a: string, b: string, c: string,
                              esc: string -> string)
    requires Marker !in x && Marker !in y && Marker !in z
    ensures Encoded(x + [Marker] + y + [Marker] + z, Some([Scalar(v), List([a, b, c])]), esc)
         == x + Quote(v, esc) + y + Quote(a, esc) + "," + Quote(b, esc) + "," + Quote(c, esc) + z
  {
    TwoPlaceholders(x, y, z, Scalar(v), List([a, b, c]), esc);
    ListOfThree(a, b, c, esc);
    var l := Quote(a, esc) + "," + Quote(b, esc) + "," + Quote(c, esc);
    assert x + Quote(v, esc) + y + l + z
        == x + Quote(v, esc) + y + Quote(a, esc) + "," + Quote(b, esc) + "," + Quote(c, esc) + z;
  }

  /** The `id in (?)` case: an array of three values in one placeholder. */
  lemma InListOfThree(x: string, y: string, a: string, b: string, c: string, esc: string -> string)
    requires Marker !in x && Marker !in y
    ensures Encoded(x + [Marker] + y, Some([List([a, b, c])]), esc)
         == x + Quote(a, esc) + "," + Quote(b, esc) + "," + Quote(c, esc) + y
  {
    ListOfThree(a, b, c, esc);
    OnePlaceholder(x, y, [List([a, b, c])], 0, Substituter(esc));
    var s := Quote(a, esc) + "," + Quote(b, esc) + "," + Quote(c, esc);
    assert x + s + y == x + Quote(a, esc) + "," + Quote(b, esc) + "," + Quote(c, esc) + y;
  }
}
