// Finding the readable body of a message (src/gmail/responses.rs): a recursive walk over the MIME tree that
// threads one mutable record of candidates through every call.
module MimeWalk {
  import opened Texts
  import opened Wrappers

  const MAX_MIME_DEPTH: nat := 32
  const MAX_MIME_PARTS: nat := 1024
  const MAX_BODY_BYTES: nat := 256 * 1024

  datatype Body = Body(data: Option<string>, size: nat)

  datatype Part = Part(mimeType: string, filename: string, headers: seq<Header>, body: Option<Body>, parts: seq<Part>)

  datatype Decoded = Decoded(text: string, hadErrors: bool)

  // Base64 and charset decoding of a part's data.
  type Decoder = (string, Part) -> Option<Decoded>

  // --- What one part contributes ------------------------------------------------------------------

  datatype Effect =
    | Nothing
    | Readable(plain: bool, decoded: Decoded)
    | Oversized(plain: bool)
    | Malformed(plain: bool)

  predicate IsAttachment(part: Part) {
    || part.filename != ""
    || exists i | 0 <= i < |part.headers| ::
         && Lower(part.headers[i].name) == Lower("Content-Disposition")
         && "attachment" <= Lower(TrimStart(part.headers[i].value))
  }

  function PartEffect(part: Part, decode: Decoder): Effect {
    var mime := Lower(part.mimeType);
    if mime != "text/plain" && mime != "text/html" then Nothing
    else
      var plain := mime == "text/plain";
      if part.body.Some? && part.body.value.data.Some? && part.body.value.data.value != "" then
        var decoded := decode(part.body.value.data.value, part);
        if decoded.None? then Malformed(plain)
        else if |Utf8(decoded.value.text)| > MAX_BODY_BYTES then Oversized(plain)
        else if Trim(decoded.value.text) != "" then Readable(plain, decoded.value)
        else Nothing
      else if part.body.Some? && part.body.value.size > 0 then Malformed(plain)
      else Nothing
  }

  // --- The parts in the order they are met --------------------------------------------------------

  datatype Visit = TooDeep | Attachment | Met(effect: Effect)

  // Preorder of the tree, cut below attachments and below the depth limit.
  function Preorder(part: Part, depth: nat, decode: Decoder): (vs: seq<Visit>)
    ensures vs != []
    decreases part
  {
    if depth > MAX_MIME_DEPTH then [TooDeep]
    else if IsAttachment(part) then [Attachment]
    else [Met(PartEffect(part, decode))] + PreorderAll(part.parts, depth + 1, decode)
  }

  function PreorderAll(parts: seq<Part>, depth: nat, decode: Decoder): seq<Visit>
    decreases parts
  {
    if parts == [] then [] else Preorder(parts[0], depth, decode) + PreorderAll(parts[1..], depth, decode)
  }

  // --- The candidates -----------------------------------------------------------------------------

  datatype Found = Found(
    plain: Option<Decoded>, html: Option<Decoded>, plainMalformed: bool, htmlMalformed: bool,
    malformedTree: bool, oversizedPlain: bool, oversizedHtml: bool, visited: nat)

  const NOTHING_FOUND := Found(None, None, false, false, false, false, false, 0)

  function Apply(f: Found, e: Effect): Found {
    match e
    case Nothing => f
    case Readable(plain, d) =>
      if plain then (if f.plain.None? then f.(plain := Some(d)) else f)
      else if f.html.None? then f.(html := Some(d)) else f
    case Oversized(plain) => if plain then f.(oversizedPlain := true) else f.(oversizedHtml := true)
    case Malformed(plain) => if plain then f.(plainMalformed := true) else f.(htmlMalformed := true)
  }

  // The counter is followed up to one past the limit only: beyond that its value makes no difference.
  function VisitOne(f: Found, v: Visit): Found {
    if f.visited >= MAX_MIME_PARTS then f.(visited := MAX_MIME_PARTS + 1, malformedTree := true)
    else
      var g := f.(visited := f.visited + 1);
      match v
      case TooDeep => g.(malformedTree := true)
      case Attachment => g
      case Met(e) => Apply(g, e)
  }

  function Fold(f: Found, vs: seq<Visit>): Found
    decreases |vs|
  {
    if vs == [] then f else Fold(VisitOne(f, vs[0]), vs[1..])
  }

  lemma {:induction false} FoldJoins(f: Found, vs: seq<Visit>, ws: seq<Visit>)
    ensures Fold(f, vs + ws) == Fold(Fold(f, vs), ws)
    decreases |vs|
  {
    if vs == [] {
      assert vs + ws == ws;
    } else {
      assert (vs + ws)[1..] == vs[1..] + ws;
      FoldJoins(VisitOne(f, vs[0]), vs[1..], ws);
    }
  }

  // Past the limit nothing is collected any more.
  lemma {:induction false} FoldPastLimit(f: Found, vs: seq<Visit>)
    requires f.visited >= MAX_MIME_PARTS && vs != []
    ensures Fold(f, vs) == f.(visited := MAX_MIME_PARTS + 1, malformedTree := true)
    decreases |vs|
  {
    if |vs| > 1 {
      FoldPastLimit(VisitOne(f, vs[0]), vs[1..]);
    }
  }

  lemma FoldChild(f: Found, parts: seq<Part>, i: nat, depth: nat, decode: Decoder)
    requires i < |parts|
    ensures Fold(f, PreorderAll(parts[i..], depth, decode))
         == Fold(Fold(f, Preorder(parts[i], depth, decode)), PreorderAll(parts[i + 1..], depth, decode))
  {
    assert parts[i..][1..] == parts[i + 1..];
    FoldJoins(f, Preorder(parts[i], depth, decode), PreorderAll(parts[i + 1..], depth, decode));
  }

  // The part itself and then its children.
  lemma FoldPart(f: Found, part: Part, depth: nat, decode: Decoder)
    requires f.visited < MAX_MIME_PARTS && depth <= MAX_MIME_DEPTH && !IsAttachment(part)
    ensures Fold(f, Preorder(part, depth, decode))
         == Fold(
               Apply(f.(visited := f.visited + 1), PartEffect(part, decode)),
               PreorderAll(part.parts, depth + 1, decode))
  {
    var vs := Preorder(part, depth, decode);
    assert vs[1..] == PreorderAll(part.parts, depth + 1, decode);
  }

  // A part that ends the descent: past the limit, too deep, or an attachment.
  lemma FoldLeaf(f: Found, part: Part, depth: nat, decode: Decoder)
    requires f.visited >= MAX_MIME_PARTS || depth > MAX_MIME_DEPTH || IsAttachment(part)
    ensures Fold(f, Preorder(part, depth, decode)) ==
            if f.visited >= MAX_MIME_PARTS then f.(visited := MAX_MIME_PARTS + 1, malformedTree := true)
            else if depth > MAX_MIME_DEPTH then f.(visited := f.visited + 1, malformedTree := true)
            else f.(visited := f.visited + 1)
  {
    if f.visited >= MAX_MIME_PARTS {
      FoldPastLimit(f, Preorder(part, depth, decode));
    }
  }

  class TextBodyCandidates {
    var plain: Option<Decoded>
    var html: Option<Decoded>
    var plainMalformed: bool
    var htmlMalformed: bool
    var malformedTree: bool
    var oversizedPlain: bool
    var oversizedHtml: bool
    var visitedParts: nat

    ghost function View(): Found
      reads this
    {
      var visited := if visitedParts > MAX_MIME_PARTS then MAX_MIME_PARTS + 1 else visitedParts;
      Found(plain, html, plainMalformed, htmlMalformed, malformedTree, oversizedPlain, oversizedHtml, visited)
    }

    constructor ()
      ensures View() == NOTHING_FOUND
    {
      plain, html, plainMalformed, htmlMalformed := None, None, false, false;
      malformedTree, oversizedPlain, oversizedHtml, visitedParts := false, false, false, 0;
    }

    method Record(e: Effect)
      modifies this
      ensures View() == Apply(old(View()), e)
    {
      match e
      case Nothing =>
      case Readable(isPlain, decoded) =>
        if isPlain {
          if plain.None? { plain := Some(decoded); }
        } else {
          if html.None? { html := Some(decoded); }
        }
      case Oversized(isPlain) =>
        if isPlain { oversizedPlain := true; } else { oversizedHtml := true; }
      case Malformed(isPlain) =>
        if isPlain { plainMalformed := true; } else { htmlMalformed := true; }
    }

    // Counts the part, and tells whether the walk ends here.
    method EndsHere(part: Part, depth: nat, ghost decode: Decoder) returns (ends: bool)
      modifies this
      ensures ends ==> View() == Fold(old(View()), Preorder(part, depth, decode))
      ensures !ends ==> old(View()).visited < MAX_MIME_PARTS && depth <= MAX_MIME_DEPTH && !IsAttachment(part)
      ensures !ends ==> View() == old(View()).(visited := old(View()).visited + 1)
    {
      ghost var before := View();
      visitedParts := visitedParts + 1;
      if depth > MAX_MIME_DEPTH || visitedParts > MAX_MIME_PARTS {
        malformedTree := true;
        ends := true;
      } else {
        ends := IsAttachment(part);
      }
      if ends {
        FoldLeaf(before, part, depth, decode);
      }
    }

    // The walk has the effect of a fold over the preorder, although it stops descending past the limit.
    method CollectTextParts(part: Part, depth: nat, decode: Decoder)
      modifies this
      ensures View() == Fold(old(View()), Preorder(part, depth, decode))
      decreases part, 1
    {
      ghost var before := View();
      var ends := EndsHere(part, depth, decode);
      if !ends {
        FoldPart(before, part, depth, decode);
        Record(PartEffect(part, decode));
        CollectChildren(part.parts, depth + 1, decode);
      }
    }

    method CollectChildren(parts: seq<Part>, depth: nat, decode: Decoder)
      modifies this
      ensures View() == Fold(old(View()), PreorderAll(parts, depth, decode))
      decreases parts, 0
    {
      ghost var all := Fold(View(), PreorderAll(parts, depth, decode));
      var i := 0;
      assert parts[0..] == parts;
      while i < |parts|
        invariant 0 <= i <= |parts|
        invariant Fold(View(), PreorderAll(parts[i..], depth, decode)) == all
      {
        FoldChild(View(), parts, i, depth, decode);
        CollectTextParts(parts[i], depth, decode);
        i := i + 1;
      }
    }
  }

  // --- What the fold finds ------------------------------------------------------------------------

  // The visits that count.
  function Counted(vs: seq<Visit>): seq<Visit> {
    if |vs| > 1024 then vs[..1024] else vs
  }

  // The first readable part of a kind.
  function FirstReadable(vs: seq<Visit>, plain: bool): Option<Decoded>
    decreases |vs|
  {
    if vs == [] then None
    else if vs[0].Met? && vs[0].effect.Readable? && vs[0].effect.plain == plain then Some(vs[0].effect.decoded)
    else FirstReadable(vs[1..], plain)
  }

  predicate Cut(vs: seq<Visit>) {
    |vs| > 1024 || TooDeep in vs
  }

  function Candidate(f: Found, plain: bool): Option<Decoded> {
    if plain then f.plain else f.html
  }

  // The visits that raise a flag, and the flag each raises.
  predicate IsFlag(w: Visit) {
    w.TooDeep? || (w.Met? && (w.effect.Malformed? || w.effect.Oversized?))
  }

  predicate Raised(f: Found, w: Visit)
    requires IsFlag(w)
  {
    match w
    case TooDeep => f.malformedTree
    case Met(Malformed(plain)) => if plain then f.plainMalformed else f.htmlMalformed
    case Met(Oversized(plain)) => if plain then f.oversizedPlain else f.oversizedHtml
  }

  lemma VisitKeepsFirst(f: Found, v: Visit, plain: bool)
    requires f.visited < MAX_MIME_PARTS
    ensures Candidate(VisitOne(f, v), plain) ==
            if Candidate(f, plain).Some? then Candidate(f, plain) else FirstReadable([v], plain)
  {
  }

  lemma VisitRaises(f: Found, v: Visit, w: Visit)
    requires f.visited < MAX_MIME_PARTS && IsFlag(w)
    ensures Raised(VisitOne(f, v), w) <==> Raised(f, w) || w == v
    ensures VisitOne(f, v).visited == f.visited + 1
  {
  }

  lemma {:induction false} FoldKeepsFirst(f: Found, vs: seq<Visit>, plain: bool)
    requires f.visited + |vs| <= MAX_MIME_PARTS
    ensures Candidate(Fold(f, vs), plain) ==
            if Candidate(f, plain).Some? then Candidate(f, plain) else FirstReadable(vs, plain)
    decreases |vs|
  {
    if vs != [] {
      VisitKeepsFirst(f, vs[0], plain);
      VisitRaises(f, vs[0], TooDeep);
      FoldKeepsFirst(VisitOne(f, vs[0]), vs[1..], plain);
    }
  }

  lemma {:induction false} FoldRaises(f: Found, vs: seq<Visit>, w: Visit)
    requires f.visited + |vs| <= MAX_MIME_PARTS && IsFlag(w)
    ensures Raised(Fold(f, vs), w) <==> Raised(f, w) || w in vs
    ensures Fold(f, vs).visited == f.visited + |vs|
    decreases |vs|
  {
    if vs != [] {
      VisitRaises(f, vs[0], w);
      FoldRaises(VisitOne(f, vs[0]), vs[1..], w);
      assert w in vs <==> w == vs[0] || w in vs[1..];
    }
  }

  // The walk finds the first readable part of each kind among the first 1,024 parts in preorder; a flag is
  // raised exactly when one of those parts raises it, and a malformed tree is reported exactly when there are
  // more parts or one lies too deep.
  lemma WalkFinds(vs: seq<Visit>)
    ensures var g := Fold(NOTHING_FOUND, vs);
            && g.plain == FirstReadable(Counted(vs), true)
            && g.html == FirstReadable(Counted(vs), false)
            && (g.plainMalformed <==> Met(Malformed(true)) in Counted(vs))
            && (g.htmlMalformed <==> Met(Malformed(false)) in Counted(vs))
            && (g.oversizedPlain <==> Met(Oversized(true)) in Counted(vs))
            && (g.oversizedHtml <==> Met(Oversized(false)) in Counted(vs))
            && (g.malformedTree <==> Cut(vs))
  {
    var counted := Counted(vs);
    FoldKeepsFirst(NOTHING_FOUND, counted, true);
    FoldKeepsFirst(NOTHING_FOUND, counted, false);
    FoldRaises(NOTHING_FOUND, counted, Met(Malformed(true)));
    FoldRaises(NOTHING_FOUND, counted, Met(Malformed(false)));
    FoldRaises(NOTHING_FOUND, counted, Met(Oversized(true)));
    FoldRaises(NOTHING_FOUND, counted, Met(Oversized(false)));
    FoldRaises(NOTHING_FOUND, counted, TooDeep);
    if |vs| > MAX_MIME_PARTS {
      assert vs == counted + vs[MAX_MIME_PARTS..];
      FoldJoins(NOTHING_FOUND, counted, vs[MAX_MIME_PARTS..]);
      FoldPastLimit(Fold(NOTHING_FOUND, counted), vs[MAX_MIME_PARTS..]);
    }
  }

  lemma {:induction false} FirstReadableIsFirst(vs: seq<Visit>, plain: bool, d: Decoded)
    ensures FirstReadable(vs, plain) == Some(d) <==>
            exists i :: 0 <= i < |vs| && vs[i] == Met(Readable(plain, d)) &&
                        forall j | 0 <= j < i :: !(vs[j].Met? && vs[j].effect.Readable? && vs[j].effect.plain == plain)
    decreases |vs|
  {
    if vs != [] {
      var rest := vs[1..];
      FirstReadableIsFirst(rest, plain, d);
      if FirstReadable(vs, plain) == Some(d) == FirstReadable(rest, plain) && vs[0] != Met(Readable(plain, d)) {
        var i :| 0 <= i < |rest| && rest[i] == Met(Readable(plain, d)) &&
                 forall j | 0 <= j < i :: !(rest[j].Met? && rest[j].effect.Readable? && rest[j].effect.plain == plain);
        assert vs[i + 1] == rest[i];
        forall j | 0 <= j < i + 1 ensures !(vs[j].Met? && vs[j].effect.Readable? && vs[j].effect.plain == plain) {
          if j > 0 { assert vs[j] == rest[j - 1]; }
        }
      }
    }
  }

  // --- The body that is returned ------------------------------------------------------------------

  datatype Status = Complete | Incomplete | NoReadableBody

  datatype TooLarge = TooLarge

  // Conversion of HTML to text, which may fail.
  type Converter = string -> Option<string>

  ghost function Visits(payload: Part, decode: Decoder): seq<Visit> {
    Preorder(payload, 0, decode)
  }

  predicate Usable(converted: Option<string>) {
    converted.Some? && Trim(converted.value) != ""
  }

  // read_body_text: plain text wins over HTML, and nothing over the size limit is ever returned.
  method ReadBodyText(payload: Part, decode: Decoder, convert: Converter)
    returns (r: Result<(Option<string>, Status), TooLarge>)
    ensures r.Ok? && r.value.0.Some? ==> |Utf8(r.value.0.value)| <= 262_144 && Trim(r.value.0.value) != ""
    ensures var vs := Visits(payload, decode);
            var seen := Counted(vs);
            var plain, html := FirstReadable(seen, true), FirstReadable(seen, false);
            var converted := if html.Some? then convert(html.value.text) else None;
            var malformed := Cut(vs) || Met(Malformed(true)) in seen;
            && (r.Err? <==>
                  || Met(Oversized(true)) in seen
                  || (plain.None? && Met(Oversized(false)) in seen)
                  || (plain.None? && converted.Some? && |Utf8(converted.value)| > 262_144))
            && (r.Ok? && plain.Some? ==>
                  r.value ==
                  (Some(plain.value.text), if plain.value.hadErrors || malformed then Incomplete else Complete))
            && (r.Ok? && plain.None? && Usable(converted) ==>
                  r.value ==
                  (converted,
                   if html.value.hadErrors || malformed || Met(Malformed(false)) in seen then Incomplete else Complete))
            && (r.Ok? && plain.None? && !Usable(converted) ==>
                  r.value ==
                  (None,
                   if html.Some? || malformed || Met(Malformed(false)) in seen then Incomplete else NoReadableBody))
  {
    var candidates := new TextBodyCandidates();
    candidates.CollectTextParts(payload, 0, decode);
    WalkFinds(Visits(payload, decode));
    FirstReadableIsText(payload, decode, true);
    if candidates.oversizedPlain || (candidates.plain.None? && candidates.oversizedHtml) {
      return Err(TooLarge);
    }
    if candidates.plain.Some? {
      var plain := candidates.plain.value;
      var incomplete := plain.hadErrors || candidates.plainMalformed || candidates.malformedTree;
      return Ok((Some(plain.text), if incomplete then Incomplete else Complete));
    }
    if candidates.html.Some? {
      var html := candidates.html.value;
      var converted := convert(html.text);
      if converted.Some? {
        if |Utf8(converted.value)| > MAX_BODY_BYTES {
          return Err(TooLarge);
        }
        if Trim(converted.value) != "" {
          var incomplete :=
            html.hadErrors || candidates.plainMalformed || candidates.htmlMalformed || candidates.malformedTree;
          return Ok((converted, if incomplete then Incomplete else Complete));
        }
      }
      candidates.htmlMalformed := true;
    }
    if candidates.plainMalformed || candidates.htmlMalformed || candidates.malformedTree {
      return Ok((None, Incomplete));
    }
    r := Ok((None, NoReadableBody));
  }

  // --- Where a text comes from --------------------------------------------------------------------

  // Whether a header says that the part is an attachment: its first ten letters do, blanks before them aside.
  predicate DeclaresAttachment(h: Header) {
    var disposition := TrimStart(h.value);
    && Lower(h.name) == "content-disposition"
    && |disposition| >= 10 && Lower(disposition[..10]) == "attachment"
  }

  // A part with a filename is an attachment, and so is one that a header declares to be one.
  lemma AttachmentExactly(part: Part)
    ensures IsAttachment(part) <==>
            |part.filename| > 0 || exists i | 0 <= i < |part.headers| :: DeclaresAttachment(part.headers[i])
  {
    forall i | 0 <= i < |part.headers|
      ensures DeclaresAttachment(part.headers[i]) <==>
              && Lower(part.headers[i].name) == Lower("Content-Disposition")
              && "attachment" <= Lower(TrimStart(part.headers[i].value))
    {
      DeclarationExactly(part.headers[i]);
    }
  }

  lemma DeclarationExactly(h: Header)
    ensures DeclaresAttachment(h) <==>
            Lower(h.name) == Lower("Content-Disposition") && "attachment" <= Lower(TrimStart(h.value))
  {
    assert Lower("Content-Disposition") == "content-disposition";
    var v := TrimStart(h.value);
    if |v| >= 10 {
      assert Lower(v[..10]) == Lower(v)[..10];
    }
  }

  predicate IsKind(part: Part, plain: bool) {
    Lower(part.mimeType) == (if plain then "text/plain" else "text/html")
  }

  predicate HasData(part: Part) {
    part.body.Some? && part.body.value.data.Some? && part.body.value.data.value != ""
  }

  // What a text part comes to: readable if its data decodes to some text within the size limit, oversized if to more
  // than that, and malformed if its data does not decode or is said to exist but missing.
  predicate Contributes(part: Part, e: Effect, decode: Decoder) {
    match e
    case Nothing => false
    case Readable(plain, d) =>
      && IsKind(part, plain) && HasData(part) && decode(part.body.value.data.value, part) == Some(d)
      && |Utf8(d.text)| <= 262_144 && Trim(d.text) != ""
    case Oversized(plain) =>
      && IsKind(part, plain) && HasData(part) && decode(part.body.value.data.value, part).Some?
      && |Utf8(decode(part.body.value.data.value, part).value.text)| > 262_144
    case Malformed(plain) =>
      && IsKind(part, plain)
      && if HasData(part) then decode(part.body.value.data.value, part).None?
         else part.body.Some? && part.body.value.size > 0
  }

  // Such a part lies in the tree, no deeper than the limit and under no attachment.
  ghost predicate Holds(part: Part, depth: nat, e: Effect, decode: Decoder)
    decreases part
  {
    && depth <= 32 && !IsAttachment(part)
    && (Contributes(part, e, decode)
        || exists i | 0 <= i < |part.parts| :: Holds(part.parts[i], depth + 1, e, decode))
  }

  lemma EffectExactly(part: Part, e: Effect, decode: Decoder)
    requires !e.Nothing?
    ensures PartEffect(part, decode) == e <==> Contributes(part, e, decode)
  {
  }

  // The walk meets exactly the texts, and the broken texts, that the tree holds.
  lemma {:induction false} MetIsHeld(part: Part, depth: nat, e: Effect, decode: Decoder)
    requires !e.Nothing?
    ensures Met(e) in Preorder(part, depth, decode) <==> Holds(part, depth, e, decode)
    decreases part, 1
  {
    if depth <= MAX_MIME_DEPTH && !IsAttachment(part) {
      MetAmongParts(part.parts, depth + 1, e, decode);
      EffectExactly(part, e, decode);
    }
  }

  lemma {:induction false} MetAmongParts(parts: seq<Part>, depth: nat, e: Effect, decode: Decoder)
    requires !e.Nothing?
    ensures Met(e) in PreorderAll(parts, depth, decode)
            <==> exists i | 0 <= i < |parts| :: Holds(parts[i], depth, e, decode)
    decreases parts, 0
  {
    if parts != [] {
      MetIsHeld(parts[0], depth, e, decode);
      MetAmongParts(parts[1..], depth, e, decode);
      if exists i | 0 <= i < |parts| :: Holds(parts[i], depth, e, decode) {
        var i :| 0 <= i < |parts| && Holds(parts[i], depth, e, decode);
        assert i > 0 ==> parts[1..][i - 1] == parts[i];
      }
    }
  }

  // A part lies deeper than the limit, under no attachment.
  ghost predicate Deep(part: Part, depth: nat)
    decreases part
  {
    depth > 32 || (!IsAttachment(part) && exists i | 0 <= i < |part.parts| :: Deep(part.parts[i], depth + 1))
  }

  // The walk meets the depth limit exactly if the tree reaches below it.
  lemma {:induction false} TooDeepIsDeep(part: Part, depth: nat, decode: Decoder)
    ensures TooDeep in Preorder(part, depth, decode) <==> Deep(part, depth)
    decreases part, 1
  {
    if depth <= MAX_MIME_DEPTH && !IsAttachment(part) {
      DeepAmongParts(part.parts, depth + 1, decode);
    }
  }

  lemma {:induction false} DeepAmongParts(parts: seq<Part>, depth: nat, decode: Decoder)
    ensures TooDeep in PreorderAll(parts, depth, decode) <==> exists i | 0 <= i < |parts| :: Deep(parts[i], depth)
    decreases parts, 0
  {
    if parts != [] {
      TooDeepIsDeep(parts[0], depth, decode);
      DeepAmongParts(parts[1..], depth, decode);
      if exists i | 0 <= i < |parts| :: Deep(parts[i], depth) {
        var i :| 0 <= i < |parts| && Deep(parts[i], depth);
        assert i > 0 ==> parts[1..][i - 1] == parts[i];
      }
    }
  }

  // So the first readable part of a kind is text of that kind in the message, within the size limit.
  lemma FirstReadableIsText(payload: Part, decode: Decoder, plain: bool)
    ensures var d := FirstReadable(Counted(Visits(payload, decode)), plain);
            d.Some? ==>
              && Holds(payload, 0, Readable(plain, d.value), decode)
              && |Utf8(d.value.text)| <= 262_144 && Trim(d.value.text) != ""
  {
    var seen := Counted(Visits(payload, decode));
    var d := FirstReadable(seen, plain);
    if d.Some? {
      FirstReadableIsFirst(seen, plain, d.value);
      var i :| 0 <= i < |seen| && seen[i] == Met(Readable(plain, d.value));
      assert seen[i] in Preorder(payload, 0, decode);
      MetIsHeld(payload, 0, Readable(plain, d.value), decode);
      TextIsBounded(payload, 0, plain, d.value, decode);
    }
  }

  lemma {:induction false} TextIsBounded(part: Part, depth: nat, plain: bool, d: Decoded, decode: Decoder)
    requires Holds(part, depth, Readable(plain, d), decode)
    ensures |Utf8(d.text)| <= 262_144 && Trim(d.text) != ""
    decreases part
  {
    if !Contributes(part, Readable(plain, d), decode) {
      var i :| 0 <= i < |part.parts| && Holds(part.parts[i], depth + 1, Readable(plain, d), decode);
      TextIsBounded(part.parts[i], depth + 1, plain, d, decode);
    }
  }
}
