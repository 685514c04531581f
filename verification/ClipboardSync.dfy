/** Clipboard synchronisation between two peers: the codec of a clipboard item, the owner marker
    that keeps received content from being sent back, and runs of both together. */
module ClipboardSync {
  import opened Prelude

  type Bytes = seq<int>

  const OWNER_FORMAT := "dyn.com.rustdesk.owner"

  /** An item of the system clipboard; text is kept as its UTF-8 bytes. */
  datatype ClipboardData =
    | Text(text: Bytes)
    | Rtf(text: Bytes)
    | Html(text: Bytes)
    | Rgba(width: nat, height: nat, data: Bytes)
    | Png(data: Bytes)
    | Svg(text: Bytes)
    | Special(name: string, data: Bytes)
    | FileUrl(urls: seq<string>)

  datatype Format = TextFormat | RtfFormat | HtmlFormat | RgbaFormat | PngFormat | SvgFormat | SpecialFormat

  /** An item as it travels, with 32-bit image dimensions. */
  datatype Clipboard = Clipboard(compress: bool, content: Bytes, width: int, height: int, format: Format, specialName: string)

  /** The libraries behind the codec. */
  datatype Library = Library(compress: Bytes -> Bytes, decompress: Bytes -> Bytes, utf8: Bytes -> bool) {
    ghost predicate Sound() {
      (forall b :: decompress(compress(b)) == b) && utf8([])
    }
  }

  /** The cast of a size to a signed 32-bit integer. */
  function ToI32(n: nat): int {
    var low := n % 0x1_0000_0000;
    if low < 0x8000_0000 then low else low - 0x1_0000_0000
  }

  function ValidRgbaDimensions(width: int, height: int, dataLen: nat): Option<(nat, nat)> {
    if width < 0 || height < 0 then None
    else if width == 0 || height == 0 then None
    else if width * height > USIZE_MAX || width * height * 4 > USIZE_MAX then None
    else if dataLen == width * height * 4 then Some((width, height))
    else None
  }

  /** The bytes to send: compressed when that is shorter. */
  function Packed(lib: Library, data: Bytes, width: int, height: int, format: Format, name: string): Clipboard {
    var compressed := lib.compress(data);
    if |compressed| < |data| then Clipboard(true, compressed, width, height, format, name)
    else Clipboard(false, data, width, height, format, name)
  }

  function ToProto(lib: Library, d: ClipboardData): Option<Clipboard> {
    match d
    case Text(s) => Some(Packed(lib, s, 0, 0, TextFormat, ""))
    case Rtf(s) => Some(Packed(lib, s, 0, 0, RtfFormat, ""))
    case Html(s) => Some(Packed(lib, s, 0, 0, HtmlFormat, ""))
    case Rgba(w, h, data) => Some(Packed(lib, data, ToI32(w), ToI32(h), RgbaFormat, ""))
    case Png(data) => Some(Clipboard(false, data, 0, 0, PngFormat, ""))
    case Svg(s) => Some(Packed(lib, s, 0, 0, SvgFormat, ""))
    case Special(name, data) => Some(Packed(lib, data, 0, 0, SpecialFormat, name))
    case FileUrl(_) => None
  }

  function FromProto(lib: Library, c: Clipboard): Option<ClipboardData> {
    var data := if c.compress then lib.decompress(c.content) else c.content;
    match c.format
    case TextFormat => if lib.utf8(data) then Some(Text(data)) else None
    case RtfFormat => if lib.utf8(data) then Some(Rtf(data)) else None
    case HtmlFormat => if lib.utf8(data) then Some(Html(data)) else None
    case RgbaFormat =>
      (match ValidRgbaDimensions(c.width, c.height, |data|)
       case None => None
       case Some((w, h)) => Some(Rgba(w, h, data)))
    case PngFormat => Some(Png(data))
    case SvgFormat => Some(Svg(if lib.utf8(data) then data else []))
    case SpecialFormat => Some(Special(c.specialName, data))
  }

  /** Text of the clipboard is always UTF-8. */
  predicate WellTyped(lib: Library, d: ClipboardData) {
    (d.Text? || d.Rtf? || d.Html? || d.Svg?) ==> lib.utf8(d.text)
  }

  /** What the receiver can rebuild: an image with 31-bit dimensions and four bytes a pixel. */
  predicate Sendable(d: ClipboardData) {
    && !d.FileUrl?
    && (d.Rgba? ==> 0 < d.width < 0x8000_0000 && 0 < d.height < 0x8000_0000 && |d.data| == d.width * d.height * 4)
  }

  /** The bytes of an item. */
  function BytesOf(d: ClipboardData): Bytes
    requires !d.FileUrl?
  {
    match d
    case Text(text) => text
    case Rtf(text) => text
    case Html(text) => text
    case Svg(text) => text
    case Rgba(_, _, data) => data
    case Png(data) => data
    case Special(_, data) => data
  }

  /** Each kind of item has its own tag on the wire; only an image has dimensions and only a special
      item a name; an item is compressed when that makes it shorter, and a PNG image never. */
  lemma OnTheWire(lib: Library, d: ClipboardData)
    ensures ToProto(lib, d).None? <==> d.FileUrl?
    ensures !d.FileUrl? ==>
      var c := ToProto(lib, d).value;
      && (c.format == TextFormat <==> d.Text?) && (c.format == RtfFormat <==> d.Rtf?)
      && (c.format == HtmlFormat <==> d.Html?) && (c.format == RgbaFormat <==> d.Rgba?)
      && (c.format == PngFormat <==> d.Png?) && (c.format == SvgFormat <==> d.Svg?)
      && (c.format == SpecialFormat <==> d.Special?)
      && c.specialName == (if d.Special? then d.name else "")
      && (!d.Rgba? ==> c.width == 0 && c.height == 0)
      && (d.Rgba? && d.width < 0x8000_0000 && d.height < 0x8000_0000 ==> c.width == d.width && c.height == d.height)
      && (c.compress <==> !d.Png? && |lib.compress(BytesOf(d))| < |BytesOf(d)|)
      && c.content == (if c.compress then lib.compress(BytesOf(d)) else BytesOf(d))
  {
  }

  /** An item comes back from the wire as it was exactly when it is sendable. */
  lemma ItemRoundTripIff(lib: Library, d: ClipboardData)
    requires lib.Sound() && WellTyped(lib, d)
    ensures Sendable(d) <==> ToProto(lib, d).Some? && FromProto(lib, ToProto(lib, d).value) == Some(d)
  {
    hide Packed;
    match d {
      case Text(s) => PackedIs(lib, s, 0, 0, TextFormat, "");
      case Rtf(s) => PackedIs(lib, s, 0, 0, RtfFormat, "");
      case Html(s) => PackedIs(lib, s, 0, 0, HtmlFormat, "");
      case Rgba(w, h, data) =>
        PackedIs(lib, data, ToI32(w), ToI32(h), RgbaFormat, "");
        RgbaRoundTripIff(w, h, |data|);
      case Png(data) =>
      case Svg(s) => PackedIs(lib, s, 0, 0, SvgFormat, "");
      case Special(name, data) => PackedIs(lib, data, 0, 0, SpecialFormat, name);
      case FileUrl(_) =>
    }
  }

  lemma PackedIs(lib: Library, data: Bytes, width: int, height: int, format: Format, name: string)
    requires lib.Sound()
    ensures
      var c := Packed(lib, data, width, height, format, name);
      && (if c.compress then lib.decompress(c.content) else c.content) == data
      && c.width == width && c.height == height && c.format == format && c.specialName == name
  {
  }

  lemma RgbaRoundTripIff(width: nat, height: nat, length: nat)
    ensures ValidRgbaDimensions(ToI32(width), ToI32(height), length) == Some((width, height))
      <==> 0 < width < 0x8000_0000 && 0 < height < 0x8000_0000 && length == width * height * 4
  {
  }

  function CreateMulti(lib: Library, data: seq<ClipboardData>): seq<Clipboard> {
    if data == [] then []
    else
      var rest := CreateMulti(lib, data[1..]);
      match ToProto(lib, data[0])
      case None => rest
      case Some(c) => [c] + rest
  }

  function FromMulti(lib: Library, message: seq<Clipboard>): seq<ClipboardData> {
    if message == [] then []
    else
      var rest := FromMulti(lib, message[1..]);
      match FromProto(lib, message[0])
      case None => rest
      case Some(d) => [d] + rest
  }

  lemma {:induction false} MessageRoundTrip(lib: Library, data: seq<ClipboardData>)
    requires lib.Sound() && forall d | d in data :: WellTyped(lib, d) && Sendable(d)
    ensures FromMulti(lib, CreateMulti(lib, data)) == data
  {
    hide ToProto, FromProto;
    if data != [] {
      ItemRoundTripIff(lib, data[0]);
      MessageRoundTrip(lib, data[1..]);
      var c := ToProto(lib, data[0]).value;
      assert ([c] + CreateMulti(lib, data[1..]))[1..] == CreateMulti(lib, data[1..]);
    }
  }

  predicate Restorable(lib: Library, data: seq<ClipboardData>) {
    forall d | d in data :: WellTyped(lib, d) && Sendable(d)
  }

  lemma RestorableRoundTrip(lib: Library, data: seq<ClipboardData>)
    requires lib.Sound() && Restorable(lib, data)
    ensures FromMulti(lib, CreateMulti(lib, data)) == data
  {
    MessageRoundTrip(lib, data);
  }

  // ---- The owner marker ----

  datatype Side = Host | Client {
    function OwnerData(): Bytes {
      if Host? then [1] else [2]
    }

    function Other(): Side {
      if Host? then Client else Host
    }
  }

  /** Any of the two owner bits marks the content as set by this program. */
  predicate IsOwner(data: Bytes) {
    data != [] && data[0] % 4 != 0
  }

  predicate Marked(content: seq<ClipboardData>) {
    exists d | d in content :: d.Special? && d.name == OWNER_FORMAT && IsOwner(d.data)
  }

  predicate Kept(d: ClipboardData) {
    !(d.Special? && d.name == OWNER_FORMAT) && !(d.Text? && d.text == [])
  }

  function Filter(content: seq<ClipboardData>): (r: seq<ClipboardData>)
    ensures forall d | d in r :: d in content && Kept(d)
  {
    if content == [] then []
    else if Kept(content[0]) then [content[0]] + Filter(content[1..])
    else Filter(content[1..])
  }

  /** A read of some content: the items at all the places that hold neither an item of the owner
      format nor an empty text, in order. */
  ghost predicate ReadAt(content: seq<ClipboardData>, read: seq<ClipboardData>, places: seq<nat>) {
    && |places| == |read|
    && (forall k :: 0 <= k < |places| ==> places[k] < |content| && read[k] == content[places[k]])
    && (forall j, k :: 0 <= j < k < |places| ==> places[j] < places[k])
    && (forall i :: 0 <= i < |content| ==>
          (i in places <==> !(content[i].Special? && content[i].name == "dyn.com.rustdesk.owner") && content[i] != Text([])))
  }

  ghost predicate IsReadOf(content: seq<ClipboardData>, read: seq<ClipboardData>) {
    exists places :: ReadAt(content, read, places)
  }

  lemma {:induction false} FilterReads(content: seq<ClipboardData>) returns (places: seq<nat>)
    ensures ReadAt(content, Filter(content), places)
  {
    if content == [] {
      places := [];
    } else {
      var front, last := content[..|content| - 1], content[|content| - 1];
      places := FilterReads(front);
      FilterSnoc(front, last);
      assert content == front + [last];
      OnePlaceMore(front, last, Filter(front), places);
      places := if Kept(last) then places + [|front|] else places;
    }
  }

  lemma FilterIsRead(content: seq<ClipboardData>)
    ensures IsReadOf(content, Filter(content))
  {
    var places := FilterReads(content);
  }

  lemma FilesAreRead(content: seq<ClipboardData>, read: seq<ClipboardData>)
    requires IsReadOf(content, read)
    ensures (exists d | d in content :: d.FileUrl?) <==> exists d | d in read :: d.FileUrl?
  {
    var places :| ReadAt(content, read, places);
    if d :| d in content && d.FileUrl? {
      var i :| 0 <= i < |content| && content[i] == d;
      assert i in places;
      var k :| 0 <= k < |places| && places[k] == i;
      assert read[k] == d;
    }
  }

  /** Some item of the owner format carries one of the two owner bits. */
  ghost predicate Owned(content: seq<ClipboardData>) {
    exists i :: 0 <= i < |content| && content[i].Special? && content[i].name == "dyn.com.rustdesk.owner"
      && content[i].data != [] && (content[i].data[0] % 4 == 1 || content[i].data[0] % 4 == 2 || content[i].data[0] % 4 == 3)
  }

  lemma OwnedIffMarked(content: seq<ClipboardData>)
    ensures Owned(content) <==> Marked(content)
  {
    if Marked(content) {
      var d :| d in content && d.Special? && d.name == OWNER_FORMAT && IsOwner(d.data);
      var i :| 0 <= i < |content| && content[i] == d;
    }
  }

  lemma {:induction false} FilterSnoc(content: seq<ClipboardData>, last: ClipboardData)
    ensures Filter(content + [last]) == Filter(content) + (if Kept(last) then [last] else [])
  {
    if content != [] {
      FilterSnoc(content[1..], last);
      assert (content + [last])[1..] == content[1..] + [last];
    }
  }

  lemma OnePlaceMore(front: seq<ClipboardData>, last: ClipboardData, read: seq<ClipboardData>, places: seq<nat>)
    requires ReadAt(front, read, places)
    ensures Kept(last) ==> ReadAt(front + [last], read + [last], places + [|front|])
    ensures !Kept(last) ==> ReadAt(front + [last], read, places)
  {
    assert |front| !in places;
    assert forall i :: i in places + [|front|] <==> i in places || i == |front|;
  }

  /** Content that holds neither is read as it is. */
  lemma {:induction false} NothingRemoved(content: seq<ClipboardData>)
    requires forall d | d in content :: !(d.Special? && d.name == "dyn.com.rustdesk.owner") && d != Text([])
    ensures Filter(content) == content && !Marked(content)
  {
    if content != [] {
      var first := content[0];
      assert first in content && (first.Text? && first.text == [] ==> first == Text([]));
      NothingRemoved(content[1..]);
      assert content == [first] + content[1..];
    }
  }

  /** What a check reads from the clipboard. */
  function Outgoing(content: seq<ClipboardData>, force: bool, fileCopy: bool): seq<ClipboardData> {
    if !force && Marked(content) then []
    else
      var kept := Filter(content);
      if fileCopy && (exists d | d in kept :: d.FileUrl?) then [] else kept
  }

  function Marker(side: Side): ClipboardData {
    Special(OWNER_FORMAT, side.OwnerData())
  }

  /** What a peer's clipboard holds after receiving a message. */
  function Installed(lib: Library, content: seq<ClipboardData>, message: seq<Clipboard>, side: Side): seq<ClipboardData> {
    var data := FromMulti(lib, message);
    if data == [] then content else data + [Marker(side)]
  }

  /** The clipboard of one process, and the last message made from it. */
  class ClipboardContext {
    const lib: Library
    const side: Side
    const fileCopy: bool
    var content: seq<ClipboardData>
    var lastMulti: seq<Clipboard>

    constructor (lib: Library, side: Side, fileCopy: bool)
      ensures content == [] && lastMulti == [] && this.lib == lib && this.side == side && this.fileCopy == fileCopy
    {
      this.lib, this.side, this.fileCopy := lib, side, fileCopy;
      content, lastMulti := [], [];
    }

    /** The loops of the filter, over the items in order: nothing from content with a marker of
        either side, and otherwise all of it but the owner's items and empty texts. */
    method GetFormatsFilter(force: bool) returns (kept: seq<ClipboardData>)
      ensures kept == if !force && Marked(content) then [] else Filter(content)
      ensures if Owned(content) && !force then kept == [] else IsReadOf(content, kept)
    {
      hide IsReadOf, Owned;
      FilterIsRead(content);
      OwnedIffMarked(content);
      kept := [];
      if !force {
        for i := 0 to |content|
          invariant !Marked(content[..i])
        {
          assert content[..i + 1] == content[..i] + [content[i]];
          var c := content[i];
          if c.Special? && c.name == OWNER_FORMAT && IsOwner(c.data) {
            assert c in content;
            return [];
          }
        }
        assert content[..|content|] == content;
      }
      for i := 0 to |content|
        invariant kept + Filter(content[i..]) == Filter(content)
      {
        if Kept(content[i]) {
          kept := kept + [content[i]];
        }
      }
    }

    method CheckClipboard(force: bool) returns (message: Option<seq<Clipboard>>)
      modifies this`lastMulti
      ensures message.Some? <==> Outgoing(content, force, fileCopy) != []
      ensures message.Some? ==> message.value == CreateMulti(lib, Outgoing(content, force, fileCopy)) == lastMulti
      ensures message.None? ==> lastMulti == old(lastMulti)
      ensures message.Some? ==> exists read :: read != [] && IsReadOf(content, read) && message.value == CreateMulti(lib, read)
      ensures (Owned(content) && !force) || (fileCopy && exists d | d in content :: d.FileUrl?) ==> message.None?
      ensures message.None? ==>
        || (Owned(content) && !force)
        || (fileCopy && exists d | d in content :: d.FileUrl?)
        || IsReadOf(content, [])
    {
      hide CreateMulti, Filter, Marked, IsReadOf, Owned;
      FilterIsRead(content);
      OwnedIffMarked(content);
      FilesAreRead(content, Filter(content));
      var data := GetFormatsFilter(force);
      if fileCopy && exists d | d in data :: d.FileUrl? {
        data := [];
      }
      if data == [] {
        return None;
      }
      lastMulti := CreateMulti(lib, data);
      return Some(lastMulti);
    }

    /** Installs what can be decoded. What the peer read from its clipboard is then on this one, and
        no later unforced check reads anything from it; a message of which nothing can be decoded
        leaves the clipboard alone. */
    method UpdateClipboard(message: seq<Clipboard>)
      modifies this`content
      ensures content == Installed(lib, old(content), message, side)
      ensures content != old(content) ==> Outgoing(content, false, fileCopy) == []
      ensures lib.Sound() ==> forall data | data != [] && Restorable(lib, data) && message == CreateMulti(lib, data) ::
        |content| == |data| + 1 && content[..|data|] == data
    {
      hide Outgoing, CreateMulti, Restorable, FromMulti;
      if lib.Sound() {
        forall data | data != [] && Restorable(lib, data) && message == CreateMulti(lib, data)
          ensures FromMulti(lib, message) == data
        {
          RestorableRoundTrip(lib, data);
        }
      }
      var data := FromMulti(lib, message);
      if data != [] {
        InstalledIsSilent(lib, content, message, side, fileCopy);
      }
      if data == [] {
        return;
      }
      content := data + [Marker(side)];
    }
  }

  /** Content received from the peer is never sent back: no check reads anything from it. */
  lemma InstalledIsSilent(lib: Library, content: seq<ClipboardData>, message: seq<Clipboard>, side: Side, fileCopy: bool)
    requires FromMulti(lib, message) != []
    ensures Outgoing(Installed(lib, content, message, side), false, fileCopy) == []
  {
  }

  // ---- Runs of two peers ----

  /** One end of a session: its clipboard, whether a change of it is still to be looked at, and the
      messages on their way to it. */
  datatype End = End(content: seq<ClipboardData>, changed: bool, inbox: seq<seq<Clipboard>>)

  datatype Session = Session(host: End, client: End) {
    function At(side: Side): End {
      if side.Host? then host else client
    }

    function With(side: Side, e: End): Session {
      if side.Host? then this.(host := e) else this.(client := e)
    }
  }

  const EMPTY := Session(End([], false, []), End([], false, []))

  datatype Step =
    | Copy(side: Side, content: seq<ClipboardData>)
    | Check(side: Side)
    | Deliver(side: Side)

  /** What another program puts on the clipboard: items in the supported formats, no owner marker. */
  predicate LocalContent(lib: Library, content: seq<ClipboardData>) {
    forall d | d in content :: WellTyped(lib, d) && Sendable(d) && !(d.Special? && d.name == OWNER_FORMAT)
  }

  predicate Enabled(lib: Library, s: Session, step: Step) {
    match step
    case Copy(_, content) => LocalContent(lib, content)
    case Check(side) => s.At(side).changed
    case Deliver(side) => s.At(side).inbox != []
  }

  function Apply(lib: Library, s: Session, step: Step): Session
    requires Enabled(lib, s, step)
  {
    var e := s.At(step.side);
    match step
    case Copy(side, content) => s.With(side, e.(content := content, changed := true))
    case Check(side) =>
      var out := Outgoing(e.content, false, false);
      var checked := s.With(side, e.(changed := false));
      var peer := checked.At(side.Other());
      if out == [] then checked
      else checked.With(side.Other(), peer.(inbox := peer.inbox + [CreateMulti(lib, out)]))
    case Deliver(side) =>
      var message := e.inbox[0];
      var content := Installed(lib, e.content, message, side);
      s.With(side, End(content, e.changed || FromMulti(lib, message) != [], e.inbox[1..]))
  }

  /** The session after a run, provided that every step of it was possible. */
  function After(lib: Library, s: Session, steps: seq<Step>): Option<Session> {
    if steps == [] then Some(s)
    else
      match After(lib, s, steps[..|steps| - 1])
      case None => None
      case Some(before) =>
        var last := steps[|steps| - 1];
        if Enabled(lib, before, last) then Some(Apply(lib, before, last)) else None
  }

  /** No change to look at and nothing on its way: no check and no delivery is possible. */
  predicate Quiet(s: Session) {
    && !s.host.changed && s.host.inbox == []
    && !s.client.changed && s.client.inbox == []
  }

  /** Some copy made on a side in the run, read by a check. */
  ghost predicate CopiedOn(steps: seq<Step>, side: Side, out: seq<ClipboardData>) {
    && out != []
    && exists i :: 0 <= i < |steps| && steps[i].Copy? && steps[i].side == side && IsReadOf(steps[i].content, out)
  }

  /** The last thing that wrote a side's clipboard: a copy, or a message that was installed. */
  function LastWrite(steps: seq<Step>, side: Side): Option<Step> {
    if steps == [] then None
    else
      var last := steps[|steps| - 1];
      if last.side == side && !last.Check? then Some(last) else LastWrite(steps[..|steps| - 1], side)
  }

  /** A clipboard holds what its last write put there, and every message on its way is the encoding
      of what a check read from a copy on the other side. */
  ghost predicate EndOk(lib: Library, e: End, start: seq<ClipboardData>, steps: seq<Step>, side: Side) {
    && (match LastWrite(steps, side)
        case None => e.content == start && !e.changed
        case Some(Copy(_, content)) => e.content == content && LocalContent(lib, content)
        case Some(_) => exists out :: CopiedOn(steps, side.Other(), out) && e.content == out + [Marker(side)])
    && (forall m | m in e.inbox :: exists out ::
          CopiedOn(steps, side.Other(), out) && Restorable(lib, out) && m == CreateMulti(lib, out))
  }

  /** In every run, each clipboard holds what was last copied on its own side or exactly what a
      check read from a copy on the other side, and every message on its way is the encoding of such
      a copy: delivered content equals what was copied, and nothing received is ever sent on. */
  lemma {:induction false} DeliveredIsCopied(lib: Library, s: Session, steps: seq<Step>)
    requires lib.Sound() && Quiet(s) && After(lib, s, steps).Some?
    ensures forall side :: EndOk(lib, After(lib, s, steps).value.At(side), s.At(side).content, steps, side)
  {
    if steps != [] {
      var earlier, last := steps[..|steps| - 1], steps[|steps| - 1];
      DeliveredIsCopied(lib, s, earlier);
      var before := After(lib, s, earlier).value;
      forall side
        ensures EndOk(lib, Apply(lib, before, last).At(side), s.At(side).content, steps, side)
      {
        EndStep(lib, s, before, steps, side);
      }
    }
  }

  lemma EndStays(lib: Library, e: End, start: seq<ClipboardData>, steps: seq<Step>, side: Side)
    requires steps != [] && EndOk(lib, e, start, steps[..|steps| - 1], side)
    requires steps[|steps| - 1].side != side || steps[|steps| - 1].Check?
    ensures EndOk(lib, e, start, steps, side)
  {
  }

  lemma CopiedStays(steps: seq<Step>, side: Side)
    requires steps != []
    ensures forall out :: CopiedOn(steps[..|steps| - 1], side, out) ==> CopiedOn(steps, side, out)
  {
    hide Outgoing;
  }

  lemma EndStep(lib: Library, s: Session, before: Session, steps: seq<Step>, side: Side)
    requires lib.Sound() && steps != []
    requires Enabled(lib, before, steps[|steps| - 1])
    requires forall x :: EndOk(lib, before.At(x), s.At(x).content, steps[..|steps| - 1], x)
    ensures EndOk(lib, Apply(lib, before, steps[|steps| - 1]).At(side), s.At(side).content, steps, side)
  {
    hide Outgoing, CreateMulti, Restorable, LocalContent, FromMulti;
    var last := steps[|steps| - 1];
    CopiedStays(steps, side.Other());
    if last.side != side || last.Check? {
      EndStays(lib, before.At(side), s.At(side).content, steps, side);
    }
    match last {
      case Copy(at, content) =>
      case Check(at) =>
        if at != side && Outgoing(before.At(at).content, false, false) != [] {
          EndStays(lib, before.At(at), s.At(at).content, steps, at);
          CheckedIsCopied(lib, before.At(at), s.At(at).content, steps, at);
        }
      case Deliver(at) =>
        if at == side {
          var out := InstalledIsCopied(lib, before.At(at), s.At(at).content, steps[..|steps| - 1], at);
          var inbox := before.At(at).inbox;
          assert forall m | m in inbox[1..] :: m in inbox;
        }
    }
  }

  /** A check that reads anything reads a local copy. */
  lemma CheckedIsCopied(lib: Library, e: End, start: seq<ClipboardData>, steps: seq<Step>, side: Side)
    requires EndOk(lib, e, start, steps, side) && e.changed && Outgoing(e.content, false, false) != []
    ensures LastWrite(steps, side).Some? && LastWrite(steps, side).value.Copy?
    ensures CopiedOn(steps, side, Outgoing(e.content, false, false)) && Restorable(lib, Outgoing(e.content, false, false))
  {
    hide CreateMulti, Outgoing, LocalContent, Restorable;
    var last := LastWrite(steps, side);
    LastWriteIsStep(steps, side);
    if last.value.Copy? {
      LocalIsRestorable(lib, e.content);
      OutgoingIsRead(e.content);
    } else {
      var out :| e.content == out + [Marker(side)];
      MarkedIsSilent(out, side);
    }
  }

  lemma OutgoingIsRead(content: seq<ClipboardData>)
    requires !Marked(content)
    ensures IsReadOf(content, Outgoing(content, false, false))
  {
    FilterIsRead(content);
  }

  lemma {:induction false} LastWriteIsStep(steps: seq<Step>, side: Side)
    ensures LastWrite(steps, side).Some? ==>
      LastWrite(steps, side).value.side == side && !LastWrite(steps, side).value.Check? && LastWrite(steps, side).value in steps
    ensures LastWrite(steps, side).None? ==> forall step | step in steps :: step.side != side || step.Check?
  {
    if steps != [] {
      LastWriteIsStep(steps[..|steps| - 1], side);
      assert steps == steps[..|steps| - 1] + [steps[|steps| - 1]];
    }
  }

  lemma MarkedIsSilent(out: seq<ClipboardData>, side: Side)
    ensures Marked(out + [Marker(side)]) && Outgoing(out + [Marker(side)], false, false) == []
  {
    assert Marker(side) in out + [Marker(side)];
  }

  lemma LocalIsRestorable(lib: Library, content: seq<ClipboardData>)
    requires LocalContent(lib, content)
    ensures Restorable(lib, Outgoing(content, false, false)) && !Marked(content)
  {
  }

  lemma InstalledIsCopied(lib: Library, e: End, start: seq<ClipboardData>, steps: seq<Step>, side: Side)
    returns (out: seq<ClipboardData>)
    requires lib.Sound() && EndOk(lib, e, start, steps, side) && e.inbox != []
    ensures CopiedOn(steps, side.Other(), out) && FromMulti(lib, e.inbox[0]) == out
  {
    assert e.inbox[0] in e.inbox;
    out :| CopiedOn(steps, side.Other(), out) && Restorable(lib, out) && e.inbox[0] == CreateMulti(lib, out);
    MessageRoundTrip(lib, out);
  }

  // ---- Messages drain ----

  function Weight(e: End): nat {
    2 * |e.inbox| + (if !e.changed then 0 else if Marked(e.content) then 1 else 3)
  }

  function TotalWeight(s: Session): nat {
    Weight(s.host) + Weight(s.client)
  }

  /** Every check and every delivery uses up some of a budget that only a copy can refill. */
  lemma StepUsesBudget(lib: Library, s: Session, step: Step)
    requires Enabled(lib, s, step) && !step.Copy?
    ensures TotalWeight(Apply(lib, s, step)) < TotalWeight(s)
  {
  }

  /** So without new copies a run is shorter than the budget it starts with. */
  lemma {:induction false} RunsDrain(lib: Library, s: Session, steps: seq<Step>)
    requires After(lib, s, steps).Some? && forall i :: 0 <= i < |steps| ==> !steps[i].Copy?
    ensures |steps| + TotalWeight(After(lib, s, steps).value) <= TotalWeight(s)
  {
    if steps != [] {
      var earlier, last := steps[..|steps| - 1], steps[|steps| - 1];
      RunsDrain(lib, s, earlier);
      StepUsesBudget(lib, After(lib, s, earlier).value, last);
    }
  }

  // ---- What a run that can go no further leaves behind ----

  lemma QuietIffStuck(lib: Library, s: Session)
    ensures Quiet(s) <==> forall side :: !Enabled(lib, s, Check(side)) && !Enabled(lib, s, Deliver(side))
  {
    assert Enabled(lib, s, Check(Host)) <==> s.host.changed;
    assert Enabled(lib, s, Check(Client)) <==> s.client.changed;
    assert Enabled(lib, s, Deliver(Host)) <==> s.host.inbox != [];
    assert Enabled(lib, s, Deliver(Client)) <==> s.client.inbox != [];
  }

  /** What has become of a side's last copy, once it has been checked and if it has anything to
      send: its message is the last one on its way; or it has been installed; or the other side has
      copied since, and that copy is unread, has nothing to send, or is on its way back. */
  ghost predicate Sent(lib: Library, s: Session, steps: seq<Step>, side: Side) {
    var mine, theirs, other := s.At(side), s.At(side.Other()), LastWrite(steps, side.Other());
    var out := Outgoing(mine.content, false, false);
    CopyLast(steps, side) && !mine.changed && out != [] ==>
      if theirs.inbox != [] then theirs.inbox[|theirs.inbox| - 1] == CreateMulti(lib, out)
      else
        || (DeliverLast(steps, side.Other()) && theirs.content == out + [Marker(side.Other())])
        || (CopyLast(steps, side.Other())
            && (theirs.changed || Outgoing(theirs.content, false, false) == [] || mine.inbox != []))
  }

  predicate CopyLast(steps: seq<Step>, side: Side) {
    LastWrite(steps, side).Some? && LastWrite(steps, side).value.Copy?
  }

  predicate DeliverLast(steps: seq<Step>, side: Side) {
    LastWrite(steps, side).Some? && LastWrite(steps, side).value.Deliver?
  }

  lemma {:induction false} EveryCopyIsSent(lib: Library, s: Session, steps: seq<Step>, side: Side)
    requires lib.Sound() && Quiet(s) && After(lib, s, steps).Some?
    ensures Sent(lib, After(lib, s, steps).value, steps, side)
  {
    hide Sent, EndOk, Apply, Enabled;
    if steps == [] {
      NothingSent(lib, s, side);
    } else {
      EveryCopyIsSent(lib, s, steps[..|steps| - 1], side);
      DeliveredIsCopied(lib, s, steps[..|steps| - 1]);
      SentStep(lib, s, After(lib, s, steps[..|steps| - 1]).value, steps, side);
    }
  }

  lemma NothingSent(lib: Library, s: Session, side: Side)
    ensures Sent(lib, s, [], side)
  {
  }

  lemma SentStep(lib: Library, s: Session, before: Session, steps: seq<Step>, side: Side)
    requires lib.Sound() && steps != [] && Enabled(lib, before, steps[|steps| - 1])
    requires forall x :: EndOk(lib, before.At(x), s.At(x).content, steps[..|steps| - 1], x)
    requires Sent(lib, before, steps[..|steps| - 1], side)
    ensures Sent(lib, Apply(lib, before, steps[|steps| - 1]), steps, side)
  {
    hide Outgoing, CreateMulti, Restorable, LocalContent, FromMulti, EndOk;
    var last := steps[|steps| - 1];
    var mine := before.At(side);
    if last.Deliver? && last.side != side && CopyLast(steps, side) && Outgoing(mine.content, false, false) != [] {
      CopyIsRestorable(lib, mine, s.At(side).content, steps[..|steps| - 1], side);
      RestorableRoundTrip(lib, Outgoing(mine.content, false, false));
    }
  }

  lemma CopyIsRestorable(lib: Library, e: End, start: seq<ClipboardData>, steps: seq<Step>, side: Side)
    requires EndOk(lib, e, start, steps, side) && CopyLast(steps, side)
    ensures Restorable(lib, Outgoing(e.content, false, false)) && !Marked(e.content)
  {
    hide Outgoing, Restorable;
    LocalIsRestorable(lib, e.content);
  }

  // ---- Whether the two clipboards agree ----

  /** A side holds something of its own and the other exactly what is read from it. */
  ghost predicate Follows(s: Session, side: Side) {
    var out := Outgoing(s.At(side).content, false, false);
    out != [] && s.At(side.Other()).content == out + [Marker(side.Other())]
  }

  ghost predicate Agree(s: Session) {
    exists side: Side :: Follows(s, side)
  }

  /** A side's clipboard was last written by a copy with something to send, and the other side's by
      a message. */
  ghost predicate CopyWins(s: Session, steps: seq<Step>, side: Side) {
    CopyLast(steps, side) && Outgoing(s.At(side).content, false, false) != [] && DeliverLast(steps, side.Other())
  }

  /** The exact condition, for any run between two states in which nothing can go on. */
  lemma AgreeIff(lib: Library, s: Session, steps: seq<Step>)
    requires lib.Sound() && Quiet(s) && After(lib, s, steps).Some? && Quiet(After(lib, s, steps).value)
    requires exists i :: 0 <= i < |steps| && steps[i].Copy?
    ensures Agree(After(lib, s, steps).value) <==> exists side :: CopyWins(After(lib, s, steps).value, steps, side)
  {
    hide EndOk, Sent, Outgoing, After;
    var end := After(lib, s, steps).value;
    forall side: Side
      ensures Follows(end, side) <==> CopyWins(end, steps, side)
    {
      FollowsIff(lib, s, steps, side);
    }
  }

  lemma FollowsIff(lib: Library, s: Session, steps: seq<Step>, side: Side)
    requires lib.Sound() && Quiet(s) && After(lib, s, steps).Some? && Quiet(After(lib, s, steps).value)
    requires exists i :: 0 <= i < |steps| && steps[i].Copy?
    ensures Follows(After(lib, s, steps).value, side) <==> CopyWins(After(lib, s, steps).value, steps, side)
  {
    hide Outgoing, After, CreateMulti, EndOk;
    var end, other := After(lib, s, steps).value, side.Other();
    DeliveredIsCopied(lib, s, steps);
    EveryCopyIsSent(lib, s, steps, side);
    if Follows(end, side) {
      MarkedIsSilent(Outgoing(end.At(side).content, false, false), other);
      if CopyLast(steps, other) {
        CopyIsRestorable(lib, end.At(other), s.At(other).content, steps, other);
      }
      ReadableIsCopied(lib, end.At(side), s.At(side).content, steps, side);
      WriteIs(lib, end.At(side), s.At(side).content, steps, side);
      WriteIs(lib, end.At(other), s.At(other).content, steps, other);
      var i :| 0 <= i < |steps| && steps[i].Copy?;
      assert steps[i] in steps;
    }
  }

  /** What can be read at the end was not installed by a message. */
  lemma ReadableIsCopied(lib: Library, e: End, start: seq<ClipboardData>, steps: seq<Step>, side: Side)
    requires EndOk(lib, e, start, steps, side) && Outgoing(e.content, false, false) != []
    ensures !DeliverLast(steps, side)
  {
    hide Outgoing, CreateMulti, CopiedOn;
    if DeliverLast(steps, side) {
      var out :| e.content == out + [Marker(side)];
      MarkedIsSilent(out, side);
    }
  }

  lemma WriteIs(lib: Library, e: End, start: seq<ClipboardData>, steps: seq<Step>, side: Side)
    requires EndOk(lib, e, start, steps, side)
    ensures DeliverLast(steps, side) ==> exists step :: step in steps && step.Copy? && step.side == side.Other()
    ensures LastWrite(steps, side).None? ==> forall step | step in steps :: step.side != side || step.Check?
    ensures LastWrite(steps, side).Some? ==> CopyLast(steps, side) || DeliverLast(steps, side)
    ensures CopyLast(steps, side) ==>
      var last := LastWrite(steps, side).value;
      last in steps && last.side == side && e.content == last.content
    ensures DeliverLast(steps, side) ==> exists out :: CopiedOn(steps, side.Other(), out) && e.content == out + [Marker(side)]
  {
    hide Outgoing, CreateMulti;
    LastWriteIsStep(steps, side);
  }

  /** Where every copy has something to send, the clipboards agree unless both were last written by
      a message, and then each holds items that were copied on the other side. */
  lemma AgreeOrExchanged(lib: Library, s: Session, steps: seq<Step>)
    requires lib.Sound() && Quiet(s) && After(lib, s, steps).Some? && Quiet(After(lib, s, steps).value)
    requires exists i :: 0 <= i < |steps| && steps[i].Copy?
    requires forall step | step in steps && step.Copy? :: Outgoing(step.content, false, false) != []
    ensures Agree(After(lib, s, steps).value) <==> !(DeliverLast(steps, Host) && DeliverLast(steps, Client))
    ensures !Agree(After(lib, s, steps).value) ==> exists a, b ::
      && CopiedOn(steps, Host, a) && CopiedOn(steps, Client, b)
      && After(lib, s, steps).value.host.content == b + [Marker(Host)]
      && After(lib, s, steps).value.client.content == a + [Marker(Client)]
  {
    hide Outgoing, After, CreateMulti, EndOk, Agree, CopiedOn;
    var end := After(lib, s, steps).value;
    DeliveredIsCopied(lib, s, steps);
    AgreeIff(lib, s, steps);
    var i :| 0 <= i < |steps| && steps[i].Copy?;
    assert steps[i] in steps;
    forall side: Side
      ensures CopyLast(steps, side) ==> CopyWins(end, steps, side)
    {
      WriteIs(lib, end.At(side), s.At(side).content, steps, side);
      WriteIs(lib, end.At(side.Other()), s.At(side.Other()).content, steps, side.Other());
      EveryCopyIsSent(lib, s, steps, side);
    }
    WriteIs(lib, end.At(Host), s.At(Host).content, steps, Host);
    WriteIs(lib, end.At(Client), s.At(Client).content, steps, Client);
  }

  /** In particular they agree when all that was copied was copied on one side: that side holds its
      last copy and the other one exactly what is read from it. */
  lemma LastCopyArrives(lib: Library, s: Session, steps: seq<Step>, side: Side)
    requires lib.Sound() && Quiet(s) && After(lib, s, steps).Some? && Quiet(After(lib, s, steps).value)
    requires exists i :: 0 <= i < |steps| && steps[i].Copy?
    requires forall step | step in steps && step.Copy? :: step.side == side
    ensures CopyLast(steps, side) && After(lib, s, steps).value.At(side).content == LastWrite(steps, side).value.content
    ensures Outgoing(LastWrite(steps, side).value.content, false, false) != [] ==> Follows(After(lib, s, steps).value, side)
    ensures
      var copied := LastWrite(steps, side).value.content;
      copied != [] && Text([]) !in copied ==>
        After(lib, s, steps).value.At(side.Other()).content
        == copied + [Special("dyn.com.rustdesk.owner", if side.Host? then [2] else [1])]
  {
    hide Outgoing, After, CreateMulti, EndOk;
    var end, other := After(lib, s, steps).value, side.Other();
    DeliveredIsCopied(lib, s, steps);
    EveryCopyIsSent(lib, s, steps, side);
    WriteIs(lib, end.At(side), s.At(side).content, steps, side);
    WriteIs(lib, end.At(other), s.At(other).content, steps, other);
    var i :| 0 <= i < |steps| && steps[i].Copy?;
    assert steps[i] in steps;
    var copied := end.At(side).content;
    CopyIsLocal(lib, end.At(side), s.At(side).content, steps, side);
    if copied != [] && Text([]) !in copied {
      NothingRemoved(copied);
      AllIsRead(copied);
    }
  }

  lemma CopyIsLocal(lib: Library, e: End, start: seq<ClipboardData>, steps: seq<Step>, side: Side)
    requires EndOk(lib, e, start, steps, side) && CopyLast(steps, side)
    ensures forall d | d in e.content :: !(d.Special? && d.name == "dyn.com.rustdesk.owner")
  {
  }

  lemma AllIsRead(content: seq<ClipboardData>)
    requires Filter(content) == content && !Marked(content)
    ensures Outgoing(content, false, false) == content
  {
  }

  lemma AfterStep(lib: Library, s: Session, steps: seq<Step>, last: Step, before: Session)
    requires After(lib, s, steps) == Some(before) && Enabled(lib, before, last)
    ensures After(lib, s, steps + [last]) == Some(Apply(lib, before, last))
  {
    assert (steps + [last])[..|steps|] == steps;
  }

  /** Both ends exist for two copies made before either message arrives. Here both messages are
      sent before either is delivered, and the clipboards end exchanged. */
  lemma CopiesCanCross(lib: Library, a: seq<ClipboardData>, b: seq<ClipboardData>) returns (steps: seq<Step>)
    requires lib.Sound() && LocalContent(lib, a) && LocalContent(lib, b)
    requires Outgoing(a, false, false) != [] && Outgoing(b, false, false) != []
    ensures After(lib, EMPTY, steps).Some? && Quiet(After(lib, EMPTY, steps).value)
    ensures After(lib, EMPTY, steps).value.host.content == Outgoing(b, false, false) + [Marker(Host)]
    ensures After(lib, EMPTY, steps).value.client.content == Outgoing(a, false, false) + [Marker(Client)]
  {
    hide Outgoing, CreateMulti, FromMulti, LocalContent, Restorable;
    var s := EMPTY;
    s, steps := BothCopied(lib, a, b);
    s, steps := RunStep(lib, s, steps, Check(Host));
    s, steps := RunStep(lib, s, steps, Check(Client));
    s, steps := RunStep(lib, s, steps, Deliver(Host));
    s, steps := RunStep(lib, s, steps, Deliver(Client));
    s, steps := RunStep(lib, s, steps, Check(Host));
    s, steps := RunStep(lib, s, steps, Check(Client));
  }

  /** Here the second copy arrives before the first one is read, and the clipboards agree on it. */
  lemma CopiesCanAgree(lib: Library, a: seq<ClipboardData>, b: seq<ClipboardData>) returns (steps: seq<Step>)
    requires lib.Sound() && LocalContent(lib, a) && LocalContent(lib, b)
    requires Outgoing(a, false, false) != [] && Outgoing(b, false, false) != []
    ensures After(lib, EMPTY, steps).Some? && Quiet(After(lib, EMPTY, steps).value)
    ensures After(lib, EMPTY, steps).value.host.content == Outgoing(b, false, false) + [Marker(Host)]
    ensures After(lib, EMPTY, steps).value.client.content == b
  {
    hide Outgoing, CreateMulti, FromMulti, LocalContent, Restorable;
    var s := EMPTY;
    s, steps := BothCopied(lib, a, b);
    s, steps := RunStep(lib, s, steps, Check(Client));
    s, steps := RunStep(lib, s, steps, Deliver(Host));
    s, steps := RunStep(lib, s, steps, Check(Host));
  }

  /** Two copies, and what will come of their messages. */
  lemma BothCopied(lib: Library, a: seq<ClipboardData>, b: seq<ClipboardData>) returns (s: Session, steps: seq<Step>)
    requires lib.Sound() && LocalContent(lib, a) && LocalContent(lib, b)
    requires Outgoing(a, false, false) != [] && Outgoing(b, false, false) != []
    ensures After(lib, EMPTY, steps) == Some(s) && s == Session(End(a, true, []), End(b, true, []))
    ensures FromMulti(lib, CreateMulti(lib, Outgoing(a, false, false))) == Outgoing(a, false, false)
    ensures FromMulti(lib, CreateMulti(lib, Outgoing(b, false, false))) == Outgoing(b, false, false)
    ensures Outgoing(Outgoing(b, false, false) + [Marker(Host)], false, false) == []
    ensures Outgoing(Outgoing(a, false, false) + [Marker(Client)], false, false) == []
  {
    hide Outgoing, CreateMulti, FromMulti, LocalContent, Restorable;
    var fromA, fromB := Outgoing(a, false, false), Outgoing(b, false, false);
    LocalIsRestorable(lib, a);
    LocalIsRestorable(lib, b);
    RestorableRoundTrip(lib, fromA);
    RestorableRoundTrip(lib, fromB);
    MarkedIsSilent(fromB, Host);
    MarkedIsSilent(fromA, Client);
    s, steps := RunStep(lib, EMPTY, [], Copy(Host, a));
    s, steps := RunStep(lib, s, steps, Copy(Client, b));
  }

  lemma RunStep(lib: Library, s: Session, steps: seq<Step>, last: Step) returns (after: Session, longer: seq<Step>)
    requires After(lib, EMPTY, steps) == Some(s) && Enabled(lib, s, last)
    ensures longer == steps + [last] && after == Apply(lib, s, last) && After(lib, EMPTY, longer) == Some(after)
  {
    AfterStep(lib, EMPTY, steps, last, s);
    after, longer := Apply(lib, s, last), steps + [last];
  }
}
