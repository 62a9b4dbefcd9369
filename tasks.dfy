/**
  The task record of the to-do list (src/App.jsx, lines 17-18 and 44-51) and
  the whitespace test that `add` applies to the entered text.
 */
module Tasks {

  datatype Option<T> = None | Some(value: T)

  /** The keys of `colors`: the three priorities. */
  datatype Priority = Low | Medium | High

  /** The entries of `CATEGORIES`. */
  datatype Category = Work | Personal | Errand

  /**
    One to-do entry. `id` is the creation time in milliseconds; `date` is the
    value of the date input, or None when that input was left empty.
   */
  datatype Task = Task(id: int, text: string, prio: Priority, date: Option<string>, cat: Category, completed: bool)

  /**
    The characters `String.prototype.trim` removes: the WhiteSpace code points
    (tab, vertical tab, form feed, space, no-break space, the byte order mark
    and the Unicode space separators) and the LineTerminator code points
    (line feed, carriage return, line and paragraph separator).
   */
  predicate IsJsWhitespace(c: char)
  {
    || c == '\t' || c == '\n' || c == '\U{000B}' || c == '\U{000C}' || c == '\r'
    || c == ' ' || c == '\U{00A0}' || c == '\U{1680}'
    || ('\U{2000}' <= c <= '\U{200A}')
    || c == '\U{2028}' || c == '\U{2029}' || c == '\U{202F}' || c == '\U{205F}'
    || c == '\U{3000}' || c == '\U{FEFF}'
  }

  /** True when `s` has no character other than whitespace (the empty string included). */
  predicate IsBlank(s: string)
  {
    forall k :: 0 <= k < |s| ==> IsJsWhitespace(s[k])
  }

  /** `s` without its leading whitespace. */
  function TrimStart(s: string): (r: string)
    ensures |r| <= |s| && r == s[|s| - |r|..]
    ensures forall k :: 0 <= k < |s| - |r| ==> IsJsWhitespace(s[k])
    ensures r != [] ==> !IsJsWhitespace(r[0])
  {
    if s != [] && IsJsWhitespace(s[0]) then TrimStart(s[1..]) else s
  }

  /** `s` without its trailing whitespace. */
  function TrimEnd(s: string): (r: string)
    ensures |r| <= |s| && r == s[..|r|]
    ensures forall k :: |r| <= k < |s| ==> IsJsWhitespace(s[k])
    ensures r != [] ==> !IsJsWhitespace(r[|r| - 1])
  {
    if s != [] && IsJsWhitespace(s[|s| - 1]) then TrimEnd(s[..|s| - 1]) else s
  }

  /** `s.trim()`; it is empty exactly when `s` is blank, which is what `!text.trim()` tests. */
  function Trim(s: string): (r: string)
    ensures r == "" <==> IsBlank(s)
  {
    TrimEnd(TrimStart(s))
  }

  /**
    `trim` yields a slice of `s` that neither starts nor ends with whitespace,
    and what it drops on either side is whitespace.
   */
  lemma TrimIsInnerSlice(s: string)
    ensures exists a, b ::
              && 0 <= a <= b <= |s| && Trim(s) == s[a..b]
              && IsBlank(s[..a]) && IsBlank(s[b..])
              && (Trim(s) != [] ==> !IsJsWhitespace(Trim(s)[0]) && !IsJsWhitespace(Trim(s)[|Trim(s)| - 1]))
  {
    var t := TrimStart(s);
    var a := |s| - |t|;
    var r := TrimEnd(t);
    var b := a + |r|;
    TrimStartDropsBlank(s);
    TrimEndDropsBlank(t);
    assert s[b..] == t[|r|..];
    assert r == s[a..b] by { assert t[..|r|] == s[a..b]; }
    assert r != [] ==> r[0] == t[0];
    assert Trim(s) == r;
    assert && 0 <= a <= b <= |s| && Trim(s) == s[a..b] && IsBlank(s[..a]) && IsBlank(s[b..])
           && (Trim(s) != [] ==> !IsJsWhitespace(Trim(s)[0]) && !IsJsWhitespace(Trim(s)[|Trim(s)| - 1]));
  }

  /** What `TrimStart` drops is blank. */
  lemma TrimStartDropsBlank(s: string)
    ensures IsBlank(s[..|s| - |TrimStart(s)|])
  {
    var a := |s| - |TrimStart(s)|;
    forall k | 0 <= k < a ensures IsJsWhitespace(s[..a][k]) { assert s[..a][k] == s[k]; }
  }

  /** What `TrimEnd` drops is blank. */
  lemma TrimEndDropsBlank(s: string)
    ensures IsBlank(s[|TrimEnd(s)|..])
  {
    var b := |TrimEnd(s)|;
    forall k | 0 <= k < |s| - b ensures IsJsWhitespace(s[b..][k]) { assert s[b..][k] == s[b + k]; }
  }

  /** Some task of `tasks` carries `id`. */
  predicate HasId(tasks: seq<Task>, id: int)
  {
    exists k :: 0 <= k < |tasks| && tasks[k].id == id
  }

  /** No two tasks of `tasks` share an id. */
  predicate UniqueIds(tasks: seq<Task>)
  {
    forall i, j :: 0 <= i < j < |tasks| ==> tasks[i].id != tasks[j].id
  }
}
