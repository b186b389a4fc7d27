/**
 The inline parser as a state machine on values: parse_inline, push_bracket, pop_bracket and
 handle_close_bracket of inlines.c. The results of the unshown scanners arrive with the events.
 */
module InlineParse {
  import opened Common
  import opened Emphasis

  // An entry of the bracket stack. The position identifies the text node; prevDelim identifies the delimiter
  // that was last on the list when the bracket was pushed.
  datatype Bracket = Bracket(at: nat, image: bool, active: bool, bracketAfter: bool, prevDelim: Option<nat>)

  // What the scanners report behind a closing bracket: the source from ] to the end of an inline link, a
  // following [label] with its trimmed text and its source, and the text between the brackets.
  datatype Label = Label(raw: string, src: string)
  datatype Scan = Scan(inlineTail: Option<string>, following: Option<Label>, slice: string)

  datatype Event =
    | Other(src: string)
    | Delimiters(d: Delim)
    | OpenBracket(at: nat, image: bool)
    | CloseBracket(scan: Scan)

  // The siblings built so far and the bracket stack, bottom first.
  datatype Parse = Parse(items: seq<Item>, brackets: seq<Bracket>)

  function LastDelim(items: seq<Item>): Option<nat> {
    var ds := Delims(items);
    if ds == [] then None else Some(ds[|ds| - 1].pos)
  }

  function OnDelimiters(p: Parse, d: Delim): Parse {
    p.(items := p.items + [if d.canOpen || d.canClose then Run(d, d.length) else Node(Leaf(Rep(d.ch, d.length)))])
  }

  function MarkAfter(bs: seq<Bracket>): seq<Bracket> {
    if bs == [] then [] else bs[|bs| - 1 := bs[|bs| - 1].(bracketAfter := true)]
  }

  function OnOpen(p: Parse, at: nat, image: bool): Parse {
    Parse(p.items + [Open(at, image)],
          MarkAfter(p.brackets) + [Bracket(at, image, true, false, LastDelim(p.items))])
  }

  function LookedUp(refs: set<string>, raw: string): bool {
    raw != "" && raw in refs
  }

  // The source of the link end, if this bracket closes a link or an image: an inline link first, then a
  // full or collapsed reference, then a shortcut reference unless another bracket came after the opener.
  function LinkTail(scan: Scan, bracketAfter: bool, refs: set<string>): Option<string> {
    if scan.inlineTail.Some? then scan.inlineTail
    else
      var src := if scan.following.Some? then "]" + scan.following.value.src else "]";
      var useSlice := (scan.following.None? || scan.following.value.raw == "") && !bracketAfter;
      if useSlice then (if LookedUp(refs, scan.slice) then Some(src) else None)
      else if scan.following.Some? && LookedUp(refs, scan.following.value.raw) then Some(src)
      else None
  }

  function LastOpen(items: seq<Item>): (r: Option<nat>)
    ensures r.Some? ==> r.value < |items| && items[r.value].Open? &&
                        forall i | r.value < i < |items| :: !items[i].Open?
    ensures r.None? ==> forall i | 0 <= i < |items| :: !items[i].Open?
  {
    if items == [] then None
    else if items[|items| - 1].Open? then Some(|items| - 1)
    else LastOpen(items[..|items| - 1])
  }

  // The text node of a popped bracket stays as plain text.
  function Demote(items: seq<Item>, i: nat): seq<Item>
    requires i < |items|
  {
    items[i := Node(Strip(items[i]))]
  }

  // The full walk: every non-image bracket on the stack goes inactive.
  function Deactivate(bs: seq<Bracket>): (r: seq<Bracket>)
    ensures |r| == |bs|
    ensures forall i | 0 <= i < |bs| :: r[i] == if bs[i].image then bs[i] else bs[i].(active := false)
  {
    if bs == [] then []
    else
      var b := bs[|bs| - 1];
      Deactivate(bs[..|bs| - 1]) + [if b.image then b else b.(active := false)]
  }

  function CloseWith(p: Parse, i: nat, tail: string): Parse
    requires i < |p.items| && p.brackets != [] && Wf(p.items)
  {
    var b := p.brackets[|p.brackets| - 1];
    var rest := p.brackets[..|p.brackets| - 1];
    var kids := ResolveSuffix(p.items, i + 1);
    Parse(p.items[..i] + [Node(Link(b.image, kids, tail))], if b.image then rest else Deactivate(rest))
  }

  function ResolveSuffix(items: seq<Item>, i: nat): seq<Inline>
    requires i <= |items| && Wf(items)
  {
    Resolve(items[i..])
  }

  const CLOSE: Item := Node(Leaf("]"))

  function PopTop(p: Parse): Parse
    requires p.brackets != []
  {
    var items := match LastOpen(p.items)
      case None => p.items
      case Some(i) => Demote(p.items, i);
    Parse(items + [CLOSE], p.brackets[..|p.brackets| - 1])
  }

  // The tail when the bracket on top of the stack turns into a link or an image.
  function Outcome(p: Parse, scan: Scan, refs: set<string>): Option<string> {
    if p.brackets == [] || !p.brackets[|p.brackets| - 1].active then None
    else LinkTail(scan, p.brackets[|p.brackets| - 1].bracketAfter, refs)
  }

  function OnClose(p: Parse, scan: Scan, refs: set<string>): Parse
    requires Wf(p.items)
  {
    if p.brackets == [] then p.(items := p.items + [CLOSE])
    else
      match (Outcome(p, scan, refs), LastOpen(p.items))
      case (Some(tail), Some(i)) => CloseWith(p, i, tail)
      case _ => PopTop(p)
  }

  function On(p: Parse, e: Event, refs: set<string>): Parse
    requires Wf(p.items)
  {
    match e
    case Other(src) => p.(items := p.items + [Node(Leaf(src))])
    case Delimiters(d) => OnDelimiters(p, d)
    case OpenBracket(at, image) => OnOpen(p, at, image)
    case CloseBracket(scan) => OnClose(p, scan, refs)
  }

  // The source text an event consumes.
  function Consumed(p: Parse, e: Event, refs: set<string>): string {
    match e
    case Other(src) => src
    case Delimiters(d) => Rep(d.ch, d.length)
    case OpenBracket(_, image) => BracketText(image)
    case CloseBracket(scan) => (match Outcome(p, scan, refs) case None => "]" case Some(tail) => tail)
  }

  // ---------- the invariant between the siblings and the bracket stack ----------

  /** Each stacked bracket has its text node among the siblings, in stack order, and its previous_delimiter is the
      delimiter just before that text node, or null. */
  ghost predicate BracketsOk(items: seq<Item>, bs: seq<Bracket>)
    decreases |bs|
  {
    match LastOpen(items)
    case None => bs == []
    case Some(i) =>
      && bs != []
      && var b := bs[|bs| - 1];
      && items[i] == Open(b.at, b.image)
      && b.prevDelim == LastDelim(items[..i])
      && BracketsOk(items[..i], bs[..|bs| - 1])
  }

  // Images stay active, and below an inactive non-image bracket every non-image bracket is inactive.
  ghost predicate ActivityOk(bs: seq<Bracket>) {
    && (forall b | b in bs && b.image :: b.active)
    && (forall i, j | 0 <= i < j < |bs| && !bs[i].image && !bs[j].image && !bs[j].active :: !bs[i].active)
  }

  predicate HasLink(n: Inline)
    decreases n, 0
  {
    match n
    case Leaf(_) => false
    case Emph(_, kids) => HasLinkAll(kids)
    case Strong(_, kids) => HasLinkAll(kids)
    case Link(image, kids, _) => !image || HasLinkAll(kids)
  }

  predicate HasLinkAll(ns: seq<Inline>)
    decreases ns, 0
  {
    ns != [] && (HasLink(ns[0]) || HasLinkAll(ns[1..]))
  }

  // No link lies inside a link at any depth, even through images and emphasis.
  predicate NoNesting(n: Inline)
    decreases n, 0
  {
    match n
    case Leaf(_) => true
    case Emph(_, kids) => NoNestingAll(kids)
    case Strong(_, kids) => NoNestingAll(kids)
    case Link(image, kids, _) => NoNestingAll(kids) && (!image ==> !HasLinkAll(kids))
  }

  predicate NoNestingAll(ns: seq<Inline>)
    decreases ns, 0
  {
    ns == [] || (NoNesting(ns[0]) && NoNestingAll(ns[1..]))
  }

  /** No link follows the text node of an active non-image bracket; linkAbove says whether one follows items. */
  ghost predicate LinksOk(items: seq<Item>, bs: seq<Bracket>, linkAbove: bool)
    decreases |bs|
  {
    bs == [] ||
    match LastOpen(items)
    case None => false
    case Some(i) =>
      var b := bs[|bs| - 1];
      var linkHere := linkAbove || HasLinkAll(StripAll(items[i + 1..]));
      && (b.active && !b.image ==> !linkHere)
      && LinksOk(items[..i], bs[..|bs| - 1], linkHere)
  }

  ghost predicate ParseInv(p: Parse) {
    && Wf(p.items)
    && Ordered(Delims(p.items))
    && BracketsOk(p.items, p.brackets)
    && ActivityOk(p.brackets)
    && LinksOk(p.items, p.brackets, false)
    && NoNestingAll(StripAll(p.items))
  }

  // ---------- whole runs ----------

  // Positions of later runs only grow; the source of other events is arbitrary.
  ghost predicate EventsFrom(es: seq<Event>, lo: nat)
    decreases |es|
  {
    es == [] ||
    match es[0]
    case Delimiters(d) => d.length >= 1 && d.ch in {'*', '_'} && lo <= d.pos && EventsFrom(es[1..], d.pos + 1)
    case _ => EventsFrom(es[1..], lo)
  }
}
