/**
 * The slice of JavaScript's value model the command relies on: strings as
 * sequences of UTF-16 code units, the values an option may hold, truthiness,
 * the `||` operator, and `Array.prototype.join`.
 */
module JsValues {

  /** One UTF-16 code unit; a JavaScript string is a sequence of these. */
  type CodeUnit = u: int | 0 <= u < 0x1_0000

  type Str = seq<CodeUnit>

  /** The code units of an ASCII literal. */
  function Ascii(s: string): (r: Str)
    requires forall i :: 0 <= i < |s| ==> s[i] as int < 0x80
    ensures |r| == |s|
    ensures forall i :: 0 <= i < |s| ==> r[i] == s[i] as int
  {
    seq(|s|, i requires 0 <= i < |s| => s[i] as int)
  }

  /**
   * The values an entry of `options` or of the parsed flags can hold.
   * A key that is not there reads as Undefined.
   */
  datatype JsValue =
    | Undefined
    | Null
    | Boolean(b: bool)
    | Number(n: int)
    | Text(s: Str)

  /** JavaScript's ToBoolean: false, 0, "", null and undefined are falsy. */
  predicate Truthy(v: JsValue) {
    match v
    case Undefined => false
    case Null => false
    case Boolean(b) => b
    case Number(n) => n != 0
    case Text(s) => s != []
  }

  /** `a || b`: the left operand when it is truthy, otherwise the right one, unchanged. */
  function Or(a: JsValue, b: JsValue): (r: JsValue)
    ensures r == a || r == b
    ensures Truthy(r) <==> Truthy(a) || Truthy(b)
    ensures Truthy(a) ==> r == a
    ensures !Truthy(a) ==> r == b
  {
    if Truthy(a) then a else b
  }

  /**
   * `words.join(sep)`, which is also what `String(words)` gives when sep is a
   * comma. The first word leads, and the separator follows it when more come.
   */
  function Join(words: seq<Str>, sep: CodeUnit): (r: Str)
    ensures words == [] ==> r == []
    ensures words != [] ==> |words[0]| <= |r| && r[..|words[0]|] == words[0]
    ensures |words| >= 2 ==> |words[0]| < |r| && r[|words[0]|] == sep
  {
    if words == [] then []
    else if |words| == 1 then words[0]
    else words[0] + [sep] + Join(words[1..], sep)
  }

  /** `s.split(sep)`, for the one-code-unit separator `sep`: the pieces between the separators, always at least one. */
  function Split(s: Str, sep: CodeUnit): (r: seq<Str>)
    decreases |s|
    ensures |r| >= 1
  {
    if s == [] then [[]]
    else if s[0] == sep then [[]] + Split(s[1..], sep)
    else
      var rest := Split(s[1..], sep);
      [[s[0]] + rest[0]] + rest[1..]
  }

  /** No word holds the separator. */
  predicate FreeOf(words: seq<Str>, sep: CodeUnit) {
    forall i, m :: 0 <= i < |words| && 0 <= m < |words[i]| ==> words[i][m] != sep
  }

  /** A separator-free prefix stays glued to the first piece of what follows it. */
  lemma {:induction false} SplitFreePrefix(w: Str, t: Str, sep: CodeUnit)
    requires forall m :: 0 <= m < |w| ==> w[m] != sep
    decreases |w|
    ensures Split(w + t, sep) == [w + Split(t, sep)[0]] + Split(t, sep)[1..]
  {
    if w == [] {
      var r := Split(t, sep);
      assert w + t == t;
      assert w + r[0] == r[0];
      assert [r[0]] + r[1..] == r;
    } else {
      assert (w + t)[0] == w[0] && (w + t)[1..] == w[1..] + t;
      SplitFreePrefix(w[1..], t, sep);
      assert [w[0]] + (w[1..] + Split(t, sep)[0]) == w + Split(t, sep)[0];
    }
  }

  /** Splitting undoes joining, when no word holds the separator. */
  lemma {:induction false} SplitJoin(words: seq<Str>, sep: CodeUnit)
    requires |words| >= 1 && FreeOf(words, sep)
    decreases |words|
    ensures Split(Join(words, sep), sep) == words
  {
    assert forall m :: 0 <= m < |words[0]| ==> words[0][m] != sep;
    if |words| == 1 {
      SplitFreePrefix(words[0], [], sep);
      assert words[0] + [] == words[0];
    } else {
      assert FreeOf(words[1..], sep) by {
        forall i, m | 0 <= i < |words[1..]| && 0 <= m < |words[1..][i]|
          ensures words[1..][i][m] != sep
        {
          assert words[1..][i] == words[i + 1];
        }
      }
      SplitJoin(words[1..], sep);
      var tail := [sep] + Join(words[1..], sep);
      assert Join(words, sep) == words[0] + tail;
      assert tail[0] == sep && tail[1..] == Join(words[1..], sep);
      assert Split(tail, sep) == [[]] + words[1..];
      SplitFreePrefix(words[0], tail, sep);
      assert words[0] + [] == words[0];
      assert [words[0]] + words[1..] == words;
    }
  }
}
