/** The text node: its template text, the variables named in `{{ ... }}` markers in it (one
    target handle each, first appearance first, no repeats), a fixed `output` source and
    `input` target, and a size computed from the text's lines. */
module TextNode {
  import opened Js
  import opened BaseNode

  // ---------------------------------------------------------------------------
  // Character classes of /\{\{(\s*[a-zA-Z_$][a-zA-Z0-9_$]*\s*)\}\}/g
  // ---------------------------------------------------------------------------

  /** `\s` on ASCII: space, tab, line feed, vertical tab, form feed, carriage return. */
  predicate IsSpace(c: char) {
    c == ' ' || '\t' <= c <= '\r'
  }

  predicate IsIdentStart(c: char) {
    'a' <= c <= 'z' || 'A' <= c <= 'Z' || c == '_' || c == '$'
  }

  predicate IsIdentPart(c: char) {
    IsIdentStart(c) || '0' <= c <= '9'
  }

  predicate IsIdentifier(s: string) {
    |s| >= 1 && IsIdentStart(s[0]) && forall k :: 1 <= k < |s| ==> IsIdentPart(s[k])
  }

  predicate AllSpaces(s: string) {
    forall k :: 0 <= k < |s| ==> IsSpace(s[k])
  }

  // ---------------------------------------------------------------------------
  // One match attempt and the global scan
  // ---------------------------------------------------------------------------

  /** Greedy `\s*` from position i: where the run of spaces ends. */
  function SkipSpaces(t: string, i: nat): (j: nat)
    requires i <= |t|
    decreases |t| - i
    ensures i <= j <= |t| && AllSpaces(t[i..j]) && (j < |t| ==> !IsSpace(t[j]))
  {
    if i < |t| && IsSpace(t[i]) then SkipSpaces(t, i + 1) else i
  }

  /** Greedy `[a-zA-Z0-9_$]*` from position i. */
  function SkipIdentParts(t: string, i: nat): (j: nat)
    requires i <= |t|
    decreases |t| - i
    ensures i <= j <= |t| && (forall k :: i <= k < j ==> IsIdentPart(t[k])) && (j < |t| ==> !IsIdentPart(t[j]))
  {
    if i < |t| && IsIdentPart(t[i]) then SkipIdentParts(t, i + 1) else i
  }

  /** A match: capture group 1 and the index just past the closing braces. */
  datatype Match = Match(group: string, end: nat)

  /** The pattern tried at position i. Every part is greedy and none can hand characters
      to the next (a space is not an identifier character and neither is a brace), so the
      greedy reading is the only one the regex can find. */
  function MatchAt(t: string, i: nat): (r: Option<Match>)
    requires i <= |t|
    ensures r.Some? ==> i + 5 <= r.value.end <= |t|
  {
    if i + 2 <= |t| && t[i] == '{' && t[i + 1] == '{' then
      var a := SkipSpaces(t, i + 2);
      if a < |t| && IsIdentStart(t[a]) then
        var b := SkipIdentParts(t, a + 1);
        var c := SkipSpaces(t, b);
        if c + 2 <= |t| && t[c] == '}' && t[c + 1] == '}' then Some(Match(t[i + 2..c], c + 2))
        else None
      else None
    else None
  }

  /** `matchAll`: leftmost match first, the next search resuming where the match ended. */
  function Scan(t: string, i: nat): seq<string>
    requires i <= |t|
    decreases |t| - i
  {
    if i == |t| then []
    else
      match MatchAt(t, i)
      case Some(m) => [m.group] + Scan(t, m.end)
      case None => Scan(t, i + 1)
  }

  // ---------------------------------------------------------------------------
  // trim, Set, and the extraction
  // ---------------------------------------------------------------------------

  function TrimStart(s: string): string {
    if s != [] && IsSpace(s[0]) then TrimStart(s[1..]) else s
  }

  function TrimEnd(s: string): string {
    if s != [] && IsSpace(s[|s| - 1]) then TrimEnd(s[..|s| - 1]) else s
  }

  /** `String.prototype.trim`. */
  function Trim(s: string): string {
    TrimEnd(TrimStart(s))
  }

  function TrimAll(groups: seq<string>): (r: seq<string>)
    ensures |r| == |groups|
  {
    if groups == [] then [] else [Trim(groups[0])] + TrimAll(groups[1..])
  }

  /** `[...new Set(s)]`: a Set iterates in insertion order, and inserting a present value
      changes nothing. */
  function Dedup(s: seq<string>): seq<string>
  {
    if s == [] then []
    else
      var init := s[..|s| - 1];
      if s[|s| - 1] in init then Dedup(init) else Dedup(init) + [s[|s| - 1]]
  }

  /** The effect's result: trimmed capture groups with repeats removed. */
  function Extract(text: string): seq<string> {
    Dedup(TrimAll(Scan(text, 0)))
  }

  // ---------------------------------------------------------------------------
  // What the regex means, independently of how it is scanned
  // ---------------------------------------------------------------------------

  /** `t[p..]` starts with `{{`, `lead` spaces, the identifier `name`, `trail` spaces, `}}`. */
  predicate TemplateAt(t: string, p: nat, lead: nat, name: string, trail: nat) {
    var a := p + 2 + lead;
    var b := a + |name|;
    var c := b + trail;
    && c + 2 <= |t|
    && t[p] == '{' && t[p + 1] == '{'
    && AllSpaces(t[p + 2..a])
    && IsIdentifier(name) && t[a..b] == name
    && AllSpaces(t[b..c])
    && t[c] == '}' && t[c + 1] == '}'
  }

  /** The text holds a well-formed `{{ name }}` somewhere. */
  ghost predicate Occurs(t: string, name: string) {
    exists p: nat, lead: nat, trail: nat :: TemplateAt(t, p, lead, name, trail)
  }

  lemma {:induction false} TrimStartSpaces(sp: string, x: string)
    requires AllSpaces(sp) && (x == [] || !IsSpace(x[0]))
    ensures TrimStart(sp + x) == x
  {
    if sp == [] {
      assert sp + x == x;
    } else {
      assert (sp + x)[1..] == sp[1..] + x;
      TrimStartSpaces(sp[1..], x);
    }
  }

  lemma {:induction false} TrimEndSpaces(x: string, sp: string)
    requires AllSpaces(sp) && (x == [] || !IsSpace(x[|x| - 1]))
    ensures TrimEnd(x + sp) == x
  {
    if sp == [] {
      assert x + sp == x;
    } else {
      assert (x + sp)[..|x + sp| - 1] == x + sp[..|sp| - 1];
      TrimEndSpaces(x, sp[..|sp| - 1]);
    }
  }

  /** Trimming the capture group leaves exactly the identifier. */
  lemma TrimGroup(lead: string, name: string, trail: string)
    requires AllSpaces(lead) && IsIdentifier(name) && AllSpaces(trail)
    ensures Trim(lead + name + trail) == name
  {
    assert lead + name + trail == lead + (name + trail);
    TrimStartSpaces(lead, name + trail);
    TrimEndSpaces(name, trail);
  }

  /** A match found at p is a well-formed marker, and its trimmed group is its identifier. */
  lemma MatchAtSound(t: string, p: nat) returns (lead: nat, name: string, trail: nat)
    requires p <= |t| && MatchAt(t, p).Some?
    ensures TemplateAt(t, p, lead, name, trail)
    ensures MatchAt(t, p).value.end == p + 4 + lead + |name| + trail
    ensures Trim(MatchAt(t, p).value.group) == name
  {
    var a, b, c := MatchAtShape(t, p);
    lead, name, trail := a - (p + 2), t[a..b], c - b;
    TemplateFromRuns(t, p, a, b, c);
    SplitGroup(t, p + 2, a, b, c);
    TrimGroup(t[p + 2..a], name, t[b..c]);
  }

  /** The three greedy runs of a match and where they end. */
  lemma MatchAtShape(t: string, p: nat) returns (a: nat, b: nat, c: nat)
    requires p <= |t| && MatchAt(t, p).Some?
    ensures p + 2 <= |t| && t[p] == '{' && t[p + 1] == '{'
    ensures a == SkipSpaces(t, p + 2) && a < |t| && IsIdentStart(t[a])
    ensures b == SkipIdentParts(t, a + 1) && c == SkipSpaces(t, b)
    ensures c + 2 <= |t| && t[c] == '}' && t[c + 1] == '}'
    ensures MatchAt(t, p).value == Match(t[p + 2..c], c + 2)
  {
    a := SkipSpaces(t, p + 2);
    b := SkipIdentParts(t, a + 1);
    c := SkipSpaces(t, b);
  }

  /** Braces around spaces, an identifier and spaces make a marker. */
  lemma TemplateFromRuns(t: string, p: nat, a: nat, b: nat, c: nat)
    requires p + 2 <= a < b <= c && c + 2 <= |t|
    requires t[p] == '{' && t[p + 1] == '{' && t[c] == '}' && t[c + 1] == '}'
    requires AllSpaces(t[p + 2..a]) && AllSpaces(t[b..c])
    requires IsIdentStart(t[a]) && forall k :: a + 1 <= k < b ==> IsIdentPart(t[k])
    ensures TemplateAt(t, p, a - (p + 2), t[a..b], c - b)
  {
    IdentifierSlice(t, a, b);
  }

  /** A slice cut at two inner points is the concatenation of the three pieces. */
  lemma SplitGroup(t: string, i: nat, a: nat, b: nat, c: nat)
    requires i <= a <= b <= c <= |t|
    ensures t[i..c] == t[i..a] + t[a..b] + t[b..c]
  {
    assert t[i..c] == t[i..a] + t[a..c];
    assert t[a..c] == t[a..b] + t[b..c];
  }

  lemma IdentifierSlice(t: string, a: nat, b: nat)
    requires a < b <= |t| && IsIdentStart(t[a])
    requires forall k :: a + 1 <= k < b ==> IsIdentPart(t[k])
    ensures IsIdentifier(t[a..b])
  {
    var name := t[a..b];
    forall k | 1 <= k < |name|
      ensures IsIdentPart(name[k])
    {
      assert name[k] == t[a + k];
    }
  }

  /** Greedy `\s*` stops exactly where a run of spaces is followed by a non-space. */
  lemma {:induction false} SkipSpacesStops(t: string, i: nat, j: nat)
    requires i <= j <= |t| && AllSpaces(t[i..j]) && (j < |t| ==> !IsSpace(t[j]))
    ensures SkipSpaces(t, i) == j
    decreases j - i
  {
    if i < j {
      assert t[i] == t[i..j][0];
      assert t[i + 1..j] == t[i..j][1..];
      SkipSpacesStops(t, i + 1, j);
    }
  }

  lemma {:induction false} SkipIdentPartsStops(t: string, i: nat, j: nat)
    requires i <= j <= |t| && (forall k :: i <= k < j ==> IsIdentPart(t[k])) && (j < |t| ==> !IsIdentPart(t[j]))
    ensures SkipIdentParts(t, i) == j
    decreases j - i
  {
    if i < j {
      SkipIdentPartsStops(t, i + 1, j);
    }
  }

  /** Every well-formed marker is matched when the search reaches its position. */
  lemma MatchAtComplete(t: string, p: nat, lead: nat, name: string, trail: nat)
    requires TemplateAt(t, p, lead, name, trail)
    ensures MatchAt(t, p).Some? && Trim(MatchAt(t, p).value.group) == name
    ensures MatchAt(t, p).value.end == p + 4 + lead + |name| + trail
  {
    var a := p + 2 + lead;
    var b := a + |name|;
    var c := b + trail;
    assert t[a] == name[0];
    SkipSpacesStops(t, p + 2, a);
    assert forall k :: a + 1 <= k < b ==> IsIdentPart(t[k]) by {
      forall k | a + 1 <= k < b
        ensures IsIdentPart(t[k])
      {
        assert t[k] == name[k - a];
      }
    }
    assert !IsIdentPart(t[b]) by {
      if trail > 0 {
        assert t[b] == t[b..c][0];
      }
    }
    SkipIdentPartsStops(t, a + 1, b);
    SkipSpacesStops(t, b, c);
    SplitGroup(t, p + 2, a, b, c);
    TrimGroup(t[p + 2..a], name, t[b..c]);
    var g := t[p + 2..c];
    assert Trim(g) == name;
    MatchAtFrom(t, p, a, b, c);
  }

  /** The match at p when its three greedy runs end at a, b and c. */
  lemma MatchAtFrom(t: string, p: nat, a: nat, b: nat, c: nat)
    requires p + 2 <= |t| && t[p] == '{' && t[p + 1] == '{'
    requires SkipSpaces(t, p + 2) == a && a < |t| && IsIdentStart(t[a])
    requires SkipIdentParts(t, a + 1) == b && SkipSpaces(t, b) == c
    requires c + 2 <= |t| && t[c] == '}' && t[c + 1] == '}'
    ensures MatchAt(t, p) == Some(Match(t[p + 2..c], c + 2))
  {
  }

  /** A match never swallows the start of another marker: the next `{{` lies at or after
      where the match ends. */
  lemma NoOverlap(t: string, i: nat, p: nat)
    requires i < p && p + 1 < |t| && t[p] == '{' && t[p + 1] == '{'
    requires i <= |t| && MatchAt(t, i).Some?
    ensures MatchAt(t, i).value.end <= p
  {
    var lead, name, trail := MatchAtSound(t, i);
    var a := i + 2 + lead;
    var b := a + |name|;
    var c := b + trail;
    forall q | i + 2 <= q < c + 2
      ensures t[q] != '{'
    {
      if q < a {
        assert t[q] == t[i + 2..a][q - (i + 2)];
      } else if q < b {
        assert t[q] == name[q - a];
      } else if q < c {
        assert t[q] == t[b..c][q - b];
      }
    }
  }

  lemma {:induction false} ScanSound(t: string, i: nat)
    requires i <= |t|
    ensures forall g :: g in TrimAll(Scan(t, i)) ==> Occurs(t, g)
    decreases |t| - i
  {
    if i < |t| {
      match MatchAt(t, i)
      case Some(m) =>
        var lead, name, trail := MatchAtSound(t, i);
        ScanSound(t, m.end);
        assert ([m.group] + Scan(t, m.end))[1..] == Scan(t, m.end);
        assert TrimAll(Scan(t, i)) == [name] + TrimAll(Scan(t, m.end));
      case None =>
        ScanSound(t, i + 1);
    }
  }

  lemma {:induction false} ScanComplete(t: string, i: nat, p: nat, lead: nat, name: string, trail: nat)
    requires i <= p && TemplateAt(t, p, lead, name, trail)
    ensures name in TrimAll(Scan(t, i))
    decreases |t| - i
  {
    if i == p {
      MatchAtComplete(t, p, lead, name, trail);
      var m := MatchAt(t, p).value;
      assert ([m.group] + Scan(t, m.end))[1..] == Scan(t, m.end);
      assert TrimAll(Scan(t, i))[0] == name;
    } else {
      match MatchAt(t, i)
      case Some(m) =>
        NoOverlap(t, i, p);
        ScanComplete(t, m.end, p, lead, name, trail);
        assert ([m.group] + Scan(t, m.end))[1..] == Scan(t, m.end);
        assert TrimAll(Scan(t, i)) == [Trim(m.group)] + TrimAll(Scan(t, m.end));
      case None =>
        ScanComplete(t, i + 1, p, lead, name, trail);
    }
  }

  // ---------------------------------------------------------------------------
  // Properties of the repeat removal
  // ---------------------------------------------------------------------------

  predicate NoDuplicates(s: seq<string>) {
    forall i, j :: 0 <= i < j < |s| ==> s[i] != s[j]
  }

  /** The index of the first occurrence of x in s (`indexOf`). */
  function IndexOf(s: seq<string>, x: string): (k: nat)
    requires x in s
    ensures k < |s| && s[k] == x && x !in s[..k]
  {
    if s[0] == x then 0
    else
      var k := IndexOf(s[1..], x);
      assert s[..k + 1] == [s[0]] + s[1..][..k];
      k + 1
  }

  lemma FirstIndexUnique(s: seq<string>, x: string, k: nat)
    requires k < |s| && s[k] == x && x !in s[..k]
    ensures IndexOf(s, x) == k
  {
    var r := IndexOf(s, x);
  }

  /** The list keeps each value once, holds exactly the values of the input, and lists them
      in the order of their first appearance. */
  lemma {:induction false} DedupProperties(s: seq<string>)
    ensures NoDuplicates(Dedup(s))
    ensures forall x :: x in Dedup(s) <==> x in s
    ensures forall i, j :: 0 <= i < j < |Dedup(s)| ==> IndexOf(s, Dedup(s)[i]) < IndexOf(s, Dedup(s)[j])
  {
    if s != [] {
      var init := s[..|s| - 1];
      var x := s[|s| - 1];
      DedupProperties(init);
      assert s == init + [x];
      var d := Dedup(init);
      forall y | y in init
        ensures IndexOf(s, y) == IndexOf(init, y)
      {
        var k := IndexOf(init, y);
        assert s[..k] == init[..k];
        FirstIndexUnique(s, y, k);
      }
      if x !in init {
        FirstIndexUnique(s, x, |init|);
        var r := d + [x];
        forall i, j | 0 <= i < j < |r|
          ensures IndexOf(s, r[i]) < IndexOf(s, r[j])
        {
          assert r[i] == d[i];
          if j < |d| {
            assert r[j] == d[j];
          }
        }
      }
    }
  }

  // ---------------------------------------------------------------------------
  // The extraction's contract
  // ---------------------------------------------------------------------------

  /** A value is extracted exactly when the text holds a well-formed `{{ value }}` marker;
      in particular every variable is a trimmed identifier. */
  lemma ExtractMembers(t: string, v: string)
    ensures v in Extract(t) <==> Occurs(t, v)
    ensures v in Extract(t) ==> IsIdentifier(v)
  {
    DedupProperties(TrimAll(Scan(t, 0)));
    ScanSound(t, 0);
    if Occurs(t, v) {
      var p: nat, lead: nat, trail: nat :| TemplateAt(t, p, lead, v, trail);
      ScanComplete(t, 0, p, lead, v, trail);
    }
  }

  /** The variables have no repeats and appear in the order of their first marker. */
  lemma ExtractOrder(t: string)
    ensures NoDuplicates(Extract(t))
    ensures forall i :: 0 <= i < |Extract(t)| ==> Extract(t)[i] in TrimAll(Scan(t, 0))
    ensures var found := TrimAll(Scan(t, 0));
            forall i, j :: 0 <= i < j < |Extract(t)| ==>
              IndexOf(found, Extract(t)[i]) < IndexOf(found, Extract(t)[j])
  {
    DedupProperties(TrimAll(Scan(t, 0)));
  }

  /** The text holds a marker for x at a position before p. */
  ghost predicate MarkedBefore(t: string, x: string, p: nat) {
    exists q: nat, lead: nat, trail: nat :: q < p && TemplateAt(t, q, lead, x, trail)
  }

  /** Scanning from i up to a marker for v at p finds v at some index k, and every group
      found before it comes from a marker that starts before p. */
  lemma {:induction false} ScanReaches(t: string, i: nat, p: nat, lead: nat, v: string, trail: nat)
    returns (k: nat)
    requires i <= p && TemplateAt(t, p, lead, v, trail)
    ensures k < |TrimAll(Scan(t, i))| && TrimAll(Scan(t, i))[k] == v
    ensures forall j :: 0 <= j < k ==> MarkedBefore(t, TrimAll(Scan(t, i))[j], p)
    decreases |t| - i
  {
    if i == p {
      MatchAtComplete(t, p, lead, v, trail);
      ScanStep(t, i);
      k := 0;
    } else if MatchAt(t, i).Some? {
      var e := MatchAt(t, i).value.end;
      NoOverlap(t, i, p);
      var k' := ScanReaches(t, e, p, lead, v, trail);
      ScanStep(t, i);
      MatchMarked(t, i, p);
      PrependMarked(t, p, Trim(MatchAt(t, i).value.group), TrimAll(Scan(t, e)), k');
      k := k' + 1;
    } else {
      ScanSkip(t, i);
      k := ScanReaches(t, i + 1, p, lead, v, trail);
    }
  }

  /** A position where nothing matches is skipped. */
  lemma ScanSkip(t: string, i: nat)
    requires i < |t| && MatchAt(t, i).None?
    ensures Scan(t, i) == Scan(t, i + 1)
  {
  }

  /** One match step of the scan, after trimming. */
  lemma ScanStep(t: string, i: nat)
    requires i < |t| && MatchAt(t, i).Some?
    ensures var m := MatchAt(t, i).value;
            TrimAll(Scan(t, i)) == [Trim(m.group)] + TrimAll(Scan(t, m.end))
  {
    var m := MatchAt(t, i).value;
    assert ([m.group] + Scan(t, m.end))[1..] == Scan(t, m.end);
  }

  /** A match at i before p comes from a marker that starts before p. */
  lemma MatchMarked(t: string, i: nat, p: nat)
    requires i < p && i <= |t| && MatchAt(t, i).Some?
    ensures MarkedBefore(t, Trim(MatchAt(t, i).value.group), p)
  {
    var lead, name, trail := MatchAtSound(t, i);
  }

  lemma PrependMarked(t: string, p: nat, x: string, rest: seq<string>, k: nat)
    requires k <= |rest| && MarkedBefore(t, x, p)
    requires forall j :: 0 <= j < k ==> MarkedBefore(t, rest[j], p)
    ensures forall j :: 0 <= j < k + 1 ==> MarkedBefore(t, ([x] + rest)[j], p)
  {
    forall j | 0 <= j < k + 1
      ensures MarkedBefore(t, ([x] + rest)[j], p)
    {
      if j > 0 {
        assert ([x] + rest)[j] == rest[j - 1];
      }
    }
  }

  /** `IndexOf` finds x no later than any position holding it. */
  lemma {:induction false} IndexOfAtMost(s: seq<string>, x: string, k: nat)
    requires k < |s| && s[k] == x
    ensures IndexOf(s, x) <= k
  {
    if s[0] != x {
      IndexOfAtMost(s[1..], x, k - 1);
    }
  }

  /** Variables come in the order of their first marker in the text: when v has a marker at
      p and w has none at or before p, v is listed before w. */
  lemma ExtractFirstAppearance(t: string, v: string, w: string, p: nat, lead: nat, trail: nat)
    requires TemplateAt(t, p, lead, v, trail) && w in Extract(t)
    requires forall q: nat, l: nat, tr: nat :: q <= p ==> !TemplateAt(t, q, l, w, tr)
    ensures v in Extract(t) && IndexOf(Extract(t), v) < IndexOf(Extract(t), w)
  {
    var found := TrimAll(Scan(t, 0));
    var k := ScanReaches(t, 0, p, lead, v, trail);
    assert !MarkedBefore(t, w, p) && v != w;
    DedupProperties(found);
    var jw := IndexOf(found, w);
    assert k < jw;
    IndexOfAtMost(found, v, k);
    DedupOrder(found, v, w);
  }

  /** Dedup keeps the order of first occurrences. */
  lemma DedupOrder(s: seq<string>, v: string, w: string)
    requires v in s && w in s && IndexOf(s, v) < IndexOf(s, w)
    ensures v in Dedup(s) && w in Dedup(s) && IndexOf(Dedup(s), v) < IndexOf(Dedup(s), w)
  {
    DedupProperties(s);
    var d := Dedup(s);
    assert d[IndexOf(d, v)] == v && d[IndexOf(d, w)] == w;
  }

  /** Text without a single well-formed marker (unbalanced braces, `{{ a b }}`, ...)
      yields no variables. */
  lemma MalformedYieldsNothing(t: string)
    requires forall p: nat, lead: nat, name: string, trail: nat :: !TemplateAt(t, p, lead, name, trail)
    ensures Extract(t) == []
  {
    if Extract(t) != [] {
      ExtractMembers(t, Extract(t)[0]);
    }
  }

  // ---------------------------------------------------------------------------
  // Handles
  // ---------------------------------------------------------------------------

  /** One target handle per variable, on the Left, named after it. */
  function VariableHandles(vars: seq<string>): seq<Handle> {
    if vars == [] then []
    else [Handle(Target, Some(Left), vars[0])] + VariableHandles(vars[1..])
  }

  /** The variable handles, then the `output` source, then the `input` target. */
  function TextHandles(vars: seq<string>): seq<Handle> {
    VariableHandles(vars) + [Handle(Source, Some(Right), "output"), Handle(Target, Some(Left), "input")]
  }

  function LeftPorts(vars: seq<string>): (r: seq<Port>)
    ensures |r| == |vars| && forall k :: 0 <= k < |vars| ==> r[k] == Port(vars[k], Left)
  {
    if vars == [] then [] else [Port(vars[0], Left)] + LeftPorts(vars[1..])
  }

  /** Once the text is extracted, a Left port is drawn for v exactly when the text holds a
      well-formed `{{ v }}` marker or v is the fixed `input`. */
  lemma PortForMarker(t: string, v: string)
    ensures Port(v, Left) in LeftPorts(Extract(t)) + [Port("input", Left)] <==> Occurs(t, v) || v == "input"
  {
    ExtractMembers(t, v);
    var ps := LeftPorts(Extract(t));
    if Port(v, Left) in ps {
      var k :| 0 <= k < |ps| && ps[k] == Port(v, Left);
      assert Extract(t)[k] == v;
    }
    if v in Extract(t) {
      var k :| 0 <= k < |Extract(t)| && Extract(t)[k] == v;
      assert ps[k] == Port(v, Left);
    }
  }

  lemma {:induction false} VariableHandlesRender(vars: seq<string>)
    ensures TargetPorts(VariableHandles(vars)) == LeftPorts(vars)
    ensures SourcePorts(VariableHandles(vars)) == []
  {
    if vars != [] {
      VariableHandlesRender(vars[1..]);
      RenderAppend([Handle(Target, Some(Left), vars[0])], VariableHandles(vars[1..]), Target, Left);
      RenderAppend([Handle(Target, Some(Left), vars[0])], VariableHandles(vars[1..]), Source, Right);
    }
  }

  /** The shell draws one Left target per variable in variable order, then `input`, and the
      single `output` source on the Right. */
  lemma TextPorts(vars: seq<string>)
    ensures TargetPorts(TextHandles(vars)) == LeftPorts(vars) + [Port("input", Left)]
    ensures SourcePorts(TextHandles(vars)) == [Port("output", Right)]
  {
    var fixed := [Handle(Source, Some(Right), "output"), Handle(Target, Some(Left), "input")];
    VariableHandlesRender(vars);
    RenderAppend(VariableHandles(vars), fixed, Target, Left);
    RenderAppend(VariableHandles(vars), fixed, Source, Right);
  }

  /** The default text `{{input}}` gives a variable `input`, so two handles share the id
      `input`. */
  lemma DefaultTextRepeatsInputHandle()
    ensures Extract(DefaultText) == ["input"]
    ensures var hs := TextHandles(Extract(DefaultText));
            |hs| == 3 && hs[0].id == "input" && hs[2].id == "input" && !DistinctIds(hs)
  {
    var t := DefaultText;
    assert TemplateAt(t, 0, 0, "input", 0) by {
      assert t[2..7] == "input";
    }
    MatchAtComplete(t, 0, 0, "input", 0);
    ScanStep(t, 0);
    assert Scan(t, |t|) == [];
    assert TrimAll(Scan(t, 0)) == ["input"];
    DedupSingle("input");
  }

  lemma DedupSingle(x: string)
    ensures Dedup([x]) == [x]
  {
    assert [x][..0] == [];
  }

  // ---------------------------------------------------------------------------
  // Size
  // ---------------------------------------------------------------------------

  /** `text.split('\n')`. */
  function SplitLines(t: string): (lines: seq<string>)
    ensures |lines| >= 1
  {
    if t == [] then [""]
    else
      var rest := SplitLines(t[1..]);
      if t[0] == '\n' then [""] + rest else [[t[0]] + rest[0]] + rest[1..]
  }

  function Newlines(t: string): nat {
    if t == [] then 0 else (if t[0] == '\n' then 1 else 0) + Newlines(t[1..])
  }

  function JoinLines(lines: seq<string>): string
    requires |lines| >= 1
  {
    if |lines| == 1 then lines[0] else lines[0] + "\n" + JoinLines(lines[1..])
  }

  /** Splitting gives one more line than there are line feeds, no line holds a line feed,
      and joining the lines back gives the text. */
  lemma {:induction false} SplitLinesProperties(t: string)
    ensures |SplitLines(t)| == Newlines(t) + 1
    ensures forall k :: 0 <= k < |SplitLines(t)| ==> '\n' !in SplitLines(t)[k]
    ensures JoinLines(SplitLines(t)) == t
  {
    if t != [] {
      SplitLinesProperties(t[1..]);
      var rest := SplitLines(t[1..]);
      if t[0] == '\n' {
        assert ([""] + rest)[1..] == rest;
      } else {
        var lines := [[t[0]] + rest[0]] + rest[1..];
        assert lines[1..] == rest[1..];
        forall k | 0 <= k < |lines|
          ensures '\n' !in lines[k]
        {
          if k > 0 {
            assert lines[k] == rest[k];
          }
        }
        assert t == [t[0]] + t[1..];
      }
    }
  }

  function Max(a: int, b: int): int { if a >= b then a else b }
  function Min(a: int, b: int): int { if a <= b then a else b }

  /** `calculateHeight`: 60 plus 20 per line, at least 100 and at most 400. */
  function Height(t: string): (h: int)
    ensures 100 <= h <= 400
  {
    var lines := |SplitLines(t)|;
    Min(Max(100, 60 + lines * 20), 400)
  }

  /** `s.length`: JavaScript counts UTF-16 code units, so a character beyond U+FFFF counts
      twice. */
  function Utf16Length(s: string): (n: nat)
    ensures |s| <= n <= 2 * |s|
  {
    if s == [] then 0 else (if s[0] as int > 0xFFFF then 2 else 1) + Utf16Length(s[1..])
  }

  /** A string of characters beyond U+FFFF is twice as long in code units. */
  lemma {:induction false} AstralLength(s: string)
    requires forall k :: 0 <= k < |s| ==> s[k] as int > 0xFFFF
    ensures Utf16Length(s) == 2 * |s|
  {
    if s != [] {
      AstralLength(s[1..]);
    }
  }

  /** `Math.max(...lines.map(l => l.length), 10)`. */
  function LongestLine(lines: seq<string>): (m: int)
    ensures m >= 10
    ensures forall k :: 0 <= k < |lines| ==> Utf16Length(lines[k]) <= m
    ensures m == 10 || exists k :: 0 <= k < |lines| && Utf16Length(lines[k]) == m
  {
    if lines == [] then 10
    else
      var rest := LongestLine(lines[1..]);
      assert forall k :: 1 <= k < |lines| ==> lines[k] == lines[1..][k - 1];
      Max(Utf16Length(lines[0]), rest)
  }

  /** `calculateWidth`: 40 plus 8 per character of the longest line, capped at 500, and
      never below 200. */
  function Width(t: string): (w: int)
    ensures 200 <= w <= 500
  {
    Max(200, Min(LongestLine(SplitLines(t)) * 8 + 40, 500))
  }

  /** One line of 25 characters beyond U+FFFF is 50 code units long, so the node is 440
      wide. */
  lemma AstralLineWidth()
    ensures Width(seq(25, _ => '\U{1F600}')) == 440
  {
    var s := seq(25, _ => '\U{1F600}');
    AstralLength(s);
    SplitLinesProperties(s);
    assert Newlines(s) == 0 by {
      NoLineFeeds(s);
    }
    var lines := SplitLines(s);
    assert |lines| == 1;
    assert lines == [s];
  }

  lemma {:induction false} NoLineFeeds(s: string)
    requires forall k :: 0 <= k < |s| ==> s[k] != '\n'
    ensures Newlines(s) == 0
  {
    if s != [] {
      NoLineFeeds(s[1..]);
    }
  }

  /** More line feeds never make the node shorter. */
  lemma HeightMonotone(t1: string, t2: string)
    requires Newlines(t1) <= Newlines(t2)
    ensures Height(t1) <= Height(t2)
  {
    SplitLinesProperties(t1);
    SplitLinesProperties(t2);
  }

  /** The box as written: the computed size goes to a prop named `style`, which the shell
      does not take, so the box is the same whatever the text. */
  function TextBoxAsWritten(t: string, dataHeight: Option<int>): (b: Box)
    ensures b.width.None? && b.height.None?
    ensures b.minHeight == DefaultMinHeight || (dataHeight.Some? && b.minHeight == dataHeight.value)
  {
    OuterBox(dataHeight, None, None)
  }

  /** The box with the size passed as `nodeStyle`: it follows the text, within the caps. */
  function TextBox(t: string, dataHeight: Option<int>): (b: Box)
    ensures b.width.Some? && 200 <= b.width.value <= 500
    ensures b.height.Some? && 100 <= b.height.value <= 400
    ensures b.height == Some(Height(t)) && b.width == Some(Width(t))
  {
    OuterBox(dataHeight, None, Some(Size(Width(t), Height(t))))
  }

  /** A one-line text and a four-line text get the same box as written, while the sized box
      is taller for the longer text. */
  lemma TextSizeIgnored(dataHeight: Option<int>)
    ensures TextBoxAsWritten("", dataHeight) == TextBoxAsWritten("\n\n\n", dataHeight)
    ensures TextBox("", dataHeight).height == Some(100)
    ensures TextBox("\n\n\n", dataHeight).height == Some(140)
  {
    SplitLinesProperties("\n\n\n");
    assert Newlines("\n\n\n") == 3;
  }

  /** With the size passed through, more lines never make the box shorter. */
  lemma TextBoxMonotone(t1: string, t2: string, dataHeight: Option<int>)
    requires Newlines(t1) <= Newlines(t2)
    ensures TextBox(t1, dataHeight).height.value <= TextBox(t2, dataHeight).height.value
  {
    HeightMonotone(t1, t2);
  }

  // ---------------------------------------------------------------------------
  // The component's state
  // ---------------------------------------------------------------------------

  const DefaultText: string := "{{input}}"

  /** The node's `currText` and `variables` state. The effect keyed on `currText` keeps
      `variables` equal to the extraction of the current text; the state is modelled as it
      stands once that effect has run. */
  class TextNodeState {
    var currText: string
    var variables: seq<string>

    ghost predicate Valid()
      reads this
    {
      variables == Extract(currText)
    }

    /** Mounting: `data?.text || '{{input}}'`, then the effect. */
    constructor (data: Option<Data>)
      ensures Valid()
      ensures currText == Or(Field(data, "text"), DefaultText)
    {
      currText := Or(Field(data, "text"), DefaultText);
      variables := Extract(Or(Field(data, "text"), DefaultText));
    }

    /** `handleTextChange`, then the effect it triggers. */
    method HandleTextChange(value: string)
      modifies this
      ensures Valid() && currText == value
    {
      currText := value;
      variables := Extract(value);
    }

    /** What the shell draws: one Left port per variable in variable order, then `input`,
        and the single `output` port on the Right. */
    function Ports(dataHeight: Option<int>): (v: View)
      reads this
      ensures v.targets == LeftPorts(variables) + [Port("input", Left)]
      ensures v.sources == [Port("output", Right)]
    {
      TextPorts(variables);
      Shell(Some(TextHandles(variables)), dataHeight, None)
    }

    /** The node's box as written: the computed size never reaches it. */
    function BoxAsWritten(dataHeight: Option<int>): (b: Box)
      reads this
      ensures b.width.None? && b.height.None?
    {
      TextBoxAsWritten(currText, dataHeight)
    }

    /** The node's box with its size passed to the shell as `nodeStyle`. */
    function SizedBox(dataHeight: Option<int>): (b: Box)
      reads this
      ensures b.height == Some(Height(currText)) && b.width == Some(Width(currText))
      ensures 100 <= b.height.value <= 400 && 200 <= b.width.value <= 500
    {
      TextBox(currText, dataHeight)
    }
  }
}
