/**
 * The serializer the store uses for its data file (serde_json in the
 * program). The model writes and reads a JSON-shaped text: an object
 * `{"key":"value",...}` whose strings escape `"` and `\` with a backslash.
 * Decoding accepts exactly that grammar; it builds the map by inserting the
 * members in the order they appear, so a later duplicate key wins, as serde
 * does when it fills a `HashMap`.
 */
module Json {
  import opened Wrappers
  import HashMaps

  /** One member of the object: a key and its value. */
  type Entry = (string, string)

  // ----- Encoding -----

  /** A character inside a string literal: `"` and `\` are preceded by `\`. */
  function EscapeChar(c: char): string {
    if c == '"' || c == '\\' then ['\\', c] else [c]
  }

  /** The body of a string literal. */
  function Escape(s: string): string {
    if s == [] then [] else EscapeChar(s[0]) + Escape(s[1..])
  }

  function Quote(s: string): string {
    ['"'] + Escape(s) + ['"']
  }

  function Member(e: Entry): string {
    Quote(e.0) + [':'] + Quote(e.1)
  }

  /** Each member preceded by a comma: what follows the first member. */
  function MoreMembers(es: seq<Entry>): string {
    if es == [] then [] else [','] + Member(es[0]) + MoreMembers(es[1..])
  }

  /** What follows the opening brace: the members and the closing brace. */
  function Body(es: seq<Entry>): string {
    if es == [] then ['}'] else Member(es[0]) + MoreMembers(es[1..]) + ['}']
  }

  /**
   * The text of an object listing `es` in this order: braces around the
   * members, separated by commas; no members give `{}`.
   */
  function Render(es: seq<Entry>): (r: string)
    ensures |r| >= 2 && r[0] == '{' && r[|r| - 1] == '}'
    ensures es == [] <==> r == ['{', '}']
  {
    ['{'] + Body(es)
  }

  /** `t` is what serializing `m` may write: its entries in some order. */
  ghost predicate IsRendering(t: string, m: map<string, string>) {
    exists es :: HashMaps.Enumerates(es, m) && t == Render(es)
  }

  /**
   * `t` is what a serialization of `m` leaves behind when the write stops
   * after `n` characters.
   */
  ghost predicate IsTruncatedRendering(t: string, m: map<string, string>, n: nat) {
    exists full :: IsRendering(full, m) && t == full[..if n <= |full| then n else |full|]
  }

  // ----- Decoding -----

  /**
   * Reads the rest of a string literal whose opening quote has been
   * consumed; returns the string and the text after the closing quote.
   */
  function ParseQuoted(t: string): (r: Option<(string, string)>)
    ensures r.Some? ==> |r.value.1| < |t|
  {
    if t == [] then None
    else if t[0] == '"' then Some(([], t[1..]))
    else if t[0] == '\\' then
      if |t| >= 2 && (t[1] == '"' || t[1] == '\\') then
        match ParseQuoted(t[2..])
        case None => None
        case Some((s, rest)) => Some(([t[1]] + s, rest))
      else None
    else
      match ParseQuoted(t[1..])
      case None => None
      case Some((s, rest)) => Some(([t[0]] + s, rest))
  }

  /** Reads a string literal at the start of `t`. */
  function ParseString(t: string): (r: Option<(string, string)>)
    ensures r.Some? ==> |r.value.1| < |t|
  {
    if t != [] && t[0] == '"' then ParseQuoted(t[1..]) else None
  }

  /** Reads one `"key":"value"` member at the start of `t`. */
  function ParseMember(t: string): (r: Option<(Entry, string)>)
    ensures r.Some? ==> |r.value.1| < |t|
  {
    match ParseString(t)
    case None => None
    case Some((k, t1)) =>
      if t1 != [] && t1[0] == ':' then
        match ParseString(t1[1..])
        case None => None
        case Some((v, t2)) => Some(((k, v), t2))
      else None
  }

  /** Reads `,"key":"value"` members up to the closing brace, which must end `t`. */
  function ParseMoreMembers(t: string): Option<seq<Entry>>
    decreases |t|
  {
    if t == ['}'] then Some([])
    else if t != [] && t[0] == ',' then
      match ParseMember(t[1..])
      case None => None
      case Some((e, t1)) =>
        match ParseMoreMembers(t1)
        case None => None
        case Some(es) => Some([e] + es)
    else None
  }

  /** Reads what follows the opening brace: no members, or one or more. */
  function ParseBody(t: string): Option<seq<Entry>> {
    if t == ['}'] then Some([])
    else
      match ParseMember(t)
      case None => None
      case Some((e, t1)) =>
        match ParseMoreMembers(t1)
        case None => None
        case Some(es) => Some([e] + es)
  }

  /** Reads a whole object, giving its members in the order written. */
  function ParseObject(t: string): Option<seq<Entry>> {
    if t != [] && t[0] == '{' then ParseBody(t[1..]) else None
  }

  /** No member after the `i`th has the same key. */
  ghost predicate LastOccurrence(es: seq<Entry>, i: int)
    requires 0 <= i < |es|
  {
    forall j | i < j < |es| :: es[j].0 != es[i].0
  }

  /**
   * Inserts the members into `acc` one after another: the keys of `acc` and
   * of the members are bound, each member key to the value of its last
   * occurrence, and every other key of `acc` keeps its value.
   */
  function Apply(acc: map<string, string>, es: seq<Entry>): (r: map<string, string>)
    decreases |es|
    ensures r.Keys == acc.Keys + HashMaps.KeysOf(es)
    ensures forall k | k in acc && k !in HashMaps.KeysOf(es) :: r[k] == acc[k]
    ensures forall i | 0 <= i < |es| && LastOccurrence(es, i) :: r[es[i].0] == es[i].1
  {
    if es == [] then acc
    else
      HashMaps.KeysOfCons(es);
      ApplyStep(acc, es);
      Apply(acc[es[0].0 := es[0].1], es[1..])
  }

  /** The last occurrences in `es` past the first member are its last occurrences in `es[1..]`. */
  lemma ApplyStep(acc: map<string, string>, es: seq<Entry>)
    requires es != []
    ensures forall i | 1 <= i < |es| && LastOccurrence(es, i) :: LastOccurrence(es[1..], i - 1)
  {
    forall i | 1 <= i < |es| && LastOccurrence(es, i) ensures LastOccurrence(es[1..], i - 1) {
      forall j | i - 1 < j < |es[1..]| ensures es[1..][j].0 != es[1..][i - 1].0 {
        assert es[1..][j] == es[j + 1];
      }
    }
  }

  /**
   * The map a file's text decodes to, or None when the text is not an
   * object: its keys are the member keys, each bound to the value of its
   * last occurrence.
   */
  function Decode(t: string): (r: Option<map<string, string>>)
    ensures r.Some? <==> ParseObject(t).Some?
    ensures r.Some? ==> r.value.Keys == HashMaps.KeysOf(ParseObject(t).value)
    ensures r.Some? ==> forall i | 0 <= i < |ParseObject(t).value| && LastOccurrence(ParseObject(t).value, i) ::
      r.value[ParseObject(t).value[i].0] == ParseObject(t).value[i].1
  {
    match ParseObject(t)
    case None => None
    case Some(es) => Some(Apply(map[], es))
  }

  // ----- Round trip -----

  /** The literal's body is read one escaped character at a time. */
  lemma ParseQuotedStep(c: char, tail: string)
    ensures ParseQuoted(EscapeChar(c) + tail) ==
      match ParseQuoted(tail)
      case None => None
      case Some((s, rest)) => Some(([c] + s, rest))
  {
    var t := EscapeChar(c) + tail;
    if c == '"' || c == '\\' {
      assert t[2..] == tail;
    } else {
      assert t[1..] == tail;
    }
  }

  lemma {:induction false} ParseQuotedEscape(s: string, rest: string)
    ensures ParseQuoted(Escape(s) + ['"'] + rest) == Some((s, rest))
  {
    if s == [] {
      assert Escape(s) + ['"'] + rest == ['"'] + rest;
    } else {
      var tail := Escape(s[1..]) + ['"'] + rest;
      assert Escape(s) + ['"'] + rest == EscapeChar(s[0]) + tail;
      ParseQuotedStep(s[0], tail);
      ParseQuotedEscape(s[1..], rest);
      assert [s[0]] + s[1..] == s;
    }
  }

  /** A string without `"` or `\` is written inside its quotes as it is. */
  lemma {:induction false} EscapePlain(s: string)
    requires forall i | 0 <= i < |s| :: s[i] != '"' && s[i] != '\\'
    ensures Escape(s) == s
  {
    if s != [] {
      EscapePlain(s[1..]);
      assert [s[0]] + s[1..] == s;
    }
  }

  lemma ParseStringQuote(s: string, rest: string)
    ensures ParseString(Quote(s) + rest) == Some((s, rest))
  {
    var t := Quote(s) + rest;
    assert t[1..] == Escape(s) + ['"'] + rest;
    ParseQuotedEscape(s, rest);
  }

  lemma ParseMemberOf(e: Entry, rest: string)
    ensures ParseMember(Member(e) + rest) == Some((e, rest))
  {
    var t1 := [':'] + Quote(e.1) + rest;
    assert Member(e) + rest == Quote(e.0) + t1;
    ParseStringQuote(e.0, t1);
    assert t1[1..] == Quote(e.1) + rest;
    ParseStringQuote(e.1, rest);
  }

  lemma ParseMoreMembersStep(e: Entry, tail: string)
    ensures ParseMoreMembers([','] + (Member(e) + tail)) ==
      match ParseMoreMembers(tail)
      case None => None
      case Some(es) => Some([e] + es)
  {
    var t := [','] + (Member(e) + tail);
    assert t[1..] == Member(e) + tail;
    ParseMemberOf(e, tail);
  }

  lemma {:induction false} ParseMoreMembersOf(es: seq<Entry>)
    ensures ParseMoreMembers(MoreMembers(es) + ['}']) == Some(es)
  {
    if es == [] {
      assert MoreMembers(es) + ['}'] == ['}'];
    } else {
      var tail := MoreMembers(es[1..]) + ['}'];
      assert MoreMembers(es) + ['}'] == [','] + (Member(es[0]) + tail);
      ParseMoreMembersStep(es[0], tail);
      ParseMoreMembersOf(es[1..]);
      assert [es[0]] + es[1..] == es;
    }
  }

  lemma ParseBodyStep(e: Entry, tail: string)
    ensures ParseBody(Member(e) + tail) ==
      match ParseMoreMembers(tail)
      case None => None
      case Some(es) => Some([e] + es)
  {
    assert (Member(e) + tail)[0] == '"';
    ParseMemberOf(e, tail);
  }

  lemma ParseBodyOf(es: seq<Entry>)
    ensures ParseBody(Body(es)) == Some(es)
  {
    if es != [] {
      var tail := MoreMembers(es[1..]) + ['}'];
      assert Body(es) == Member(es[0]) + tail;
      ParseBodyStep(es[0], tail);
      ParseMoreMembersOf(es[1..]);
      assert [es[0]] + es[1..] == es;
    }
  }

  lemma ParseObjectOf(es: seq<Entry>)
    ensures ParseObject(Render(es)) == Some(es)
  {
    assert Render(es)[1..] == Body(es);
    ParseBodyOf(es);
  }

  /** Inserting entries that agree with `m` into a part of `m` gives a part of `m`. */
  lemma {:induction false} ApplyAgreeing(acc: map<string, string>, es: seq<Entry>, m: map<string, string>)
    requires forall k | k in acc :: k in m && acc[k] == m[k]
    requires forall i | 0 <= i < |es| :: es[i].0 in m && m[es[i].0] == es[i].1
    ensures Apply(acc, es).Keys == acc.Keys + HashMaps.KeysOf(es)
    ensures forall k | k in Apply(acc, es) :: Apply(acc, es)[k] == m[k]
    decreases |es|
  {
    if es != [] {
      HashMaps.KeysOfCons(es);
      forall i | 0 <= i < |es[1..]| ensures es[1..][i].0 in m && m[es[1..][i].0] == es[1..][i].1 {
        assert es[1..][i] == es[i + 1];
      }
      ApplyAgreeing(acc[es[0].0 := es[0].1], es[1..], m);
    }
  }

  /** The text of a list of entries decodes to the map that inserting them builds. */
  lemma DecodeRender(es: seq<Entry>)
    ensures Decode(Render(es)) == Some(Apply(map[], es))
  {
    ParseObjectOf(es);
  }

  /** Inserting an enumeration of `m` builds `m`. */
  lemma ApplyEnumeration(es: seq<Entry>, m: map<string, string>)
    requires HashMaps.Enumerates(es, m)
    ensures Apply(map[], es) == m
  {
    ApplyAgreeing(map[], es, m);
    var d := Apply(map[], es);
    assert d.Keys == m.Keys;
  }

  /** Whatever order the entries were written in, the text decodes to `m`. */
  lemma DecodeRendering(t: string, m: map<string, string>)
    requires IsRendering(t, m)
    ensures Decode(t) == Some(m)
  {
    var es: seq<Entry> :| HashMaps.Enumerates(es, m) && t == Render(es);
    DecodeRender(es);
    ApplyEnumeration(es, m);
  }

  /** A one-entry map has exactly one rendering. */
  lemma SingletonRendering(t: string, k: string, v: string)
    requires IsRendering(t, map[k := v])
    ensures t == ['{'] + Quote(k) + [':'] + Quote(v) + ['}']
  {
    var es: seq<Entry> :| HashMaps.Enumerates(es, map[k := v]) && t == Render(es);
    HashMaps.SingletonEnumeration(es, k, v);
    RenderOne((k, v));
  }

  lemma RenderOne(e: Entry)
    ensures Render([e]) == ['{'] + Quote(e.0) + [':'] + Quote(e.1) + ['}']
  {
    assert [e][1..] == [];
  }

  // ----- Truncated texts -----

  /** A string literal cut short inside its body has no closing quote. */
  lemma {:induction false} EscapedPrefixUnterminated(s: string, n: nat)
    requires n <= |Escape(s)|
    ensures ParseQuoted(Escape(s)[..n]) == None
  {
    if n > 0 {
      assert Escape(s) == EscapeChar(s[0]) + Escape(s[1..]);
      var p := Escape(s)[..n];
      if s[0] == '"' || s[0] == '\\' {
        if n >= 2 {
          assert p[2..] == Escape(s[1..])[..n - 2];
          EscapedPrefixUnterminated(s[1..], n - 2);
        }
      } else {
        assert p[1..] == Escape(s[1..])[..n - 1];
        EscapedPrefixUnterminated(s[1..], n - 1);
      }
    }
  }

  lemma QuotePrefixUnterminated(s: string, n: nat)
    requires n < |Quote(s)|
    ensures ParseString(Quote(s)[..n]) == None
  {
    if n > 0 {
      var p := Quote(s)[..n];
      assert p[1..] == Escape(s)[..n - 1];
      EscapedPrefixUnterminated(s, n - 1);
    }
  }

  lemma MemberPrefixUnterminated(e: Entry, n: nat)
    requires n < |Member(e)|
    ensures ParseMember(Member(e)[..n]) == None
  {
    var qk := Quote(e.0);
    var p := Member(e)[..n];
    if n < |qk| {
      assert p == qk[..n];
      QuotePrefixUnterminated(e.0, n);
    } else {
      var t1 := ([':'] + Quote(e.1))[..n - |qk|];
      assert p == qk + t1;
      ParseStringQuote(e.0, t1);
      if n > |qk| {
        assert t1[1..] == Quote(e.1)[..n - |qk| - 1];
        QuotePrefixUnterminated(e.1, n - |qk| - 1);
      }
    }
  }

  lemma CommaMemberPrefixUnterminated(e: Entry, n: nat)
    requires n < |Member(e)|
    ensures ParseMoreMembers([','] + Member(e)[..n]) == None
  {
    var p := [','] + Member(e)[..n];
    assert p[0] == ',' && p[1..] == Member(e)[..n];
    MemberPrefixUnterminated(e, n);
  }

  lemma {:induction false} MoreMembersPrefixUnterminated(es: seq<Entry>, n: nat)
    requires n < |MoreMembers(es) + ['}']|
    ensures ParseMoreMembers((MoreMembers(es) + ['}'])[..n]) == None
  {
    if n > 0 && es != [] {
      var e := es[0];
      var tail := MoreMembers(es[1..]) + ['}'];
      var full := [','] + (Member(e) + tail);
      assert MoreMembers(es) + ['}'] == full;
      var p := full[..n];
      assert p[0] == ',';
      if n - 1 < |Member(e)| {
        assert p == [','] + Member(e)[..n - 1];
        CommaMemberPrefixUnterminated(e, n - 1);
      } else {
        var k := n - 1 - |Member(e)|;
        assert p == [','] + (Member(e) + tail[..k]);
        ParseMoreMembersStep(e, tail[..k]);
        MoreMembersPrefixUnterminated(es[1..], k);
      }
    }
  }

  lemma BodyPrefixUnterminated(es: seq<Entry>, n: nat)
    requires n < |Body(es)|
    ensures ParseBody(Body(es)[..n]) == None
  {
    if es != [] {
      var e := es[0];
      var tail := MoreMembers(es[1..]) + ['}'];
      assert Body(es) == Member(e) + tail;
      var p := Body(es)[..n];
      if n < |Member(e)| {
        assert p == Member(e)[..n];
        assert n > 0 ==> p[0] == '"';
        MemberPrefixUnterminated(e, n);
      } else {
        var k := n - |Member(e)|;
        assert p == Member(e) + tail[..k];
        ParseBodyStep(e, tail[..k]);
        MoreMembersPrefixUnterminated(es[1..], k);
      }
    }
  }

  /** No proper prefix of an object's text decodes: the closing brace is missing. */
  lemma RenderPrefixDoesNotDecode(es: seq<Entry>, n: nat)
    requires n < |Render(es)|
    ensures Decode(Render(es)[..n]) == None
  {
    ObjectPrefixUnterminated(Render(es)[..n], es, n);
  }

  lemma ObjectPrefixUnterminated(p: string, es: seq<Entry>, n: nat)
    requires n < |['{'] + Body(es)| && p == (['{'] + Body(es))[..n]
    ensures ParseObject(p) == None
  {
    if n > 0 {
      assert p[0] == '{' && p[1..] == Body(es)[..n - 1];
      BodyPrefixUnterminated(es, n - 1);
    }
  }

  /** Cutting the text of an enumeration of `m` anywhere leaves `m` or nothing decodable. */
  lemma RenderCutDecodes(es: seq<Entry>, m: map<string, string>, n: nat)
    requires HashMaps.Enumerates(es, m)
    ensures var t := Render(es)[..if n <= |Render(es)| then n else |Render(es)|];
      Decode(t).Some? ==> Decode(t) == Some(m)
  {
    if n < |Render(es)| {
      RenderPrefixDoesNotDecode(es, n);
    } else {
      assert Render(es)[..|Render(es)|] == Render(es);
      DecodeRender(es);
      ApplyEnumeration(es, m);
    }
  }

  /**
   * What an interrupted serialization of `m` leaves behind decodes to `m`
   * (the write was in fact complete) or not at all; never to another map.
   */
  lemma TruncatedRenderingDecodes(t: string, m: map<string, string>, n: nat)
    requires IsTruncatedRendering(t, m, n)
    ensures Decode(t).Some? ==> Decode(t) == Some(m)
  {
    var full :| IsRendering(full, m) && t == full[..if n <= |full| then n else |full|];
    var es: seq<Entry> :| HashMaps.Enumerates(es, m) && full == Render(es);
    RenderCutDecodes(es, m, n);
  }

  /** An empty file is not a serialized map. */
  lemma EmptyTextIsCorrupt()
    ensures Decode([]) == None
  {
  }

  /**
   * Serializes `m`, writing its entries in the map's iteration order; the
   * text decodes back to `m`.
   */
  method Serialize(m: map<string, string>) returns (t: string)
    ensures IsRendering(t, m)
    ensures Decode(t) == Some(m)
  {
    var es := HashMaps.Iterate(m);
    t := Render(es);
    DecodeRendering(t, m);
  }
}
