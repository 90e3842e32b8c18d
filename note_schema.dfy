/** The Note document of models/Note.js: its fields, the `trim` setter that
    Mongoose applies to title and content, and the `required` validators that
    every saved document passes. */
module NoteSchema {
  import opened Wrappers

  /** Opaque identifiers stand for MongoDB ObjectIds. */
  type UserId = nat
  type NoteId = nat
  /** Logical time replaces `Date`: larger means later. */
  type Time = nat

  /** A stored note: `_id`, title, content, the owning `user`, and the two
      timestamps (`createdAt` declared explicitly, `updatedAt` added by the
      `timestamps` option). */
  datatype Note = Note(
    id: NoteId,
    title: string,
    content: string,
    user: UserId,
    createdAt: Time,
    updatedAt: Time)

  /** The characters that JavaScript's `String.prototype.trim` removes: the
      WhiteSpace and LineTerminator code points of ECMAScript. */
  predicate IsWhitespace(c: char)
    ensures IsWhitespace(c) ==> c as int < 0x1_0000
  {
    || c == '\t' || c == '\n' || c == '\U{000B}' || c == '\U{000C}' || c == '\r'
    || c == ' ' || c == '\U{00A0}' || c == '\U{1680}'
    || ('\U{2000}' <= c <= '\U{200A}')
    || c == '\U{2028}' || c == '\U{2029}' || c == '\U{202F}' || c == '\U{205F}'
    || c == '\U{3000}' || c == '\U{FEFF}'
  }

  predicate AllWhitespace(s: string)
  {
    forall i :: 0 <= i < |s| ==> IsWhitespace(s[i])
  }

  /** Neither end of `s` is whitespace. */
  predicate Trimmed(s: string)
  {
    s == [] || (!IsWhitespace(s[0]) && !IsWhitespace(s[|s| - 1]))
  }

  /** How many whitespace characters `s` starts with. */
  function LeadingWhitespace(s: string): (k: nat)
    ensures k <= |s| && AllWhitespace(s[..k])
    ensures k == |s| || !IsWhitespace(s[k])
  {
    if s == [] || !IsWhitespace(s[0]) then 0
    else
      var k := LeadingWhitespace(s[1..]);
      assert s[..k + 1] == [s[0]] + s[1..][..k];
      k + 1
  }

  /** Where the trailing whitespace of `s` begins. */
  function TrailingWhitespace(s: string): (k: nat)
    ensures k <= |s| && AllWhitespace(s[k..])
    ensures k == 0 || !IsWhitespace(s[k - 1])
  {
    if s == [] || !IsWhitespace(s[|s| - 1]) then |s|
    else
      var k := TrailingWhitespace(s[..|s| - 1]);
      assert s[k..] == s[..|s| - 1][k..] + [s[|s| - 1]];
      k
  }

  /** The `trim: true` setter of title and content: `s` with its leading and
      trailing whitespace removed. */
  function Trim(s: string): (r: string)
    ensures Trimmed(r) && |r| <= |s|
  {
    var t := s[LeadingWhitespace(s)..];
    t[..TrailingWhitespace(t)]
  }

  /** What `Trim` keeps is one slice of its input, and only whitespace lies
      outside that slice. */
  lemma TrimIsSlice(s: string)
    ensures exists i, j :: 0 <= i <= j <= |s| && Trim(s) == s[i..j] && AllWhitespace(s[..i]) && AllWhitespace(s[j..])
  {
    var i := LeadingWhitespace(s);
    var t := s[i..];
    var k := TrailingWhitespace(t);
    assert Trim(s) == s[i..i + k];
    assert s[i + k..] == t[k..];
  }

  /** A value the schema accepts for title or content: `required` rejects the
      empty string, and a stored value has already been through the setter. */
  predicate ValidText(s: string)
  {
    s != [] && Trimmed(s)
  }

  /** What every stored note satisfies. The owner `user` is always present
      because `UserId` has no "missing" value. */
  predicate ValidNote(n: Note)
  {
    ValidText(n.title) && ValidText(n.content) && n.createdAt <= n.updatedAt
  }

  /** Assigning a string to title or content and saving: the setter trims
      it, then `required` fails unless something is left. */
  function Normalize(raw: string): (r: Option<string>)
    ensures r.None? <==> AllWhitespace(raw)
    ensures r.Some? ==> ValidText(r.value) && r.value == Trim(raw)
  {
    var t := Trim(raw);
    TrimEmptyIff(raw);
    if t == [] then None else Some(t)
  }

  /** Trimming removes exactly the leading and the trailing whitespace:
      whatever whitespace surrounds an already-trimmed string, `Trim` gives
      back that string. */
  lemma TrimSurrounded(a: string, m: string, b: string)
    requires AllWhitespace(a) && AllWhitespace(b) && Trimmed(m)
    ensures Trim(a + m + b) == m
  {
    if m == [] {
      assert a + m + b == a + b;
      AllWhitespaceConcat(a, b);
      TrimEmptyIff(a + b);
    } else {
      var s := a + m + b;
      LeadingSkips(a, m + b);
      assert s == a + (m + b) && s[|a|..] == m + b;
      TrailingSkips(m, b);
      assert (m + b)[..|m|] == m;
    }
  }

  lemma AllWhitespaceConcat(a: string, b: string)
    requires AllWhitespace(a) && AllWhitespace(b)
    ensures AllWhitespace(a + b)
  {
    forall i | 0 <= i < |a + b| ensures IsWhitespace((a + b)[i]) {
      if i >= |a| { assert (a + b)[i] == b[i - |a|]; }
    }
  }

  lemma {:induction false} LeadingSkips(a: string, t: string)
    requires AllWhitespace(a)
    requires t != [] && !IsWhitespace(t[0])
    ensures LeadingWhitespace(a + t) == |a|
  {
    if a != [] {
      assert (a + t)[1..] == a[1..] + t;
      LeadingSkips(a[1..], t);
    } else {
      assert a + t == t;
    }
  }

  lemma {:induction false} TrailingSkips(t: string, b: string)
    requires AllWhitespace(b)
    requires t != [] && !IsWhitespace(t[|t| - 1])
    ensures TrailingWhitespace(t + b) == |t|
  {
    if b != [] {
      assert (t + b)[..|t + b| - 1] == t + b[..|b| - 1];
      TrailingSkips(t, b[..|b| - 1]);
    } else {
      assert t + b == t;
    }
  }

  /** Trimming leaves nothing exactly when the input is all whitespace; this
      is when `required` rejects a title or a content. */
  lemma TrimEmptyIff(s: string)
    ensures Trim(s) == [] <==> AllWhitespace(s)
  {
    var i := LeadingWhitespace(s);
    if AllWhitespace(s) {
      LeadingOfBlank(s);
    } else {
      var j :| 0 <= j < |s| && !IsWhitespace(s[j]);
      LeadingStopsAt(s, j);
      var t := s[i..];
      assert t[0] == s[i];
      TrailingOfNonBlank(t);
    }
  }

  lemma {:induction false} LeadingOfBlank(s: string)
    requires AllWhitespace(s)
    ensures LeadingWhitespace(s) == |s|
  {
    if s != [] {
      LeadingOfBlank(s[1..]);
    }
  }

  lemma {:induction false} LeadingStopsAt(s: string, j: nat)
    requires j < |s| && !IsWhitespace(s[j])
    ensures LeadingWhitespace(s) <= j
  {
    if IsWhitespace(s[0]) {
      assert s[0] != s[j];
      LeadingStopsAt(s[1..], j - 1);
    }
  }

  lemma {:induction false} TrailingOfNonBlank(t: string)
    requires t != [] && !IsWhitespace(t[0])
    ensures TrailingWhitespace(t) > 0
  {
    if IsWhitespace(t[|t| - 1]) {
      assert t[0] != t[|t| - 1];
      TrailingOfNonBlank(t[..|t| - 1]);
    }
  }

  /** An already-trimmed string is its own trim, so trimming twice is
      trimming once. */
  lemma TrimIdempotent(s: string)
    ensures Trimmed(s) ==> Trim(s) == s
    ensures Trim(Trim(s)) == Trim(s)
  {
    assert [] + s + [] == s;
    if Trimmed(s) { TrimSurrounded([], s, []); }
    var t := Trim(s);
    assert [] + t + [] == t;
    TrimSurrounded([], t, []);
  }

  /** A value the schema accepts is exactly a non-empty fixed point of the
      setter. */
  lemma ValidTextIsFixpoint(s: string)
    ensures ValidText(s) <==> s != [] && Trim(s) == s
  {
    TrimIdempotent(s);
  }

  /** A value the schema accepts is stored unchanged. */
  lemma NormalizeValid(s: string)
    requires ValidText(s)
    ensures Normalize(s) == Some(s)
  {
    TrimIdempotent(s);
  }

  /** A value that survived the setter and the validator is stored as it
      is when assigned again. */
  lemma NormalizeStable(raw: string)
    requires Normalize(raw).Some?
    ensures Normalize(Normalize(raw).value) == Normalize(raw)
  {
    TrimIdempotent(raw);
  }
}
