/** The abbreviation tables of .debug_abbrev (readelf-mini/dwarf.c; section 7.5.3 of DWARF 3): the parser
    process_abbrev_section and the linked lists that add_abbrev and add_abbrev_attr grow. */
module Abbrevs {
  import opened Machine
  import opened Leb128

  // ----- values -----

  datatype Attr = Attr(attribute: nat, form: nat)

  datatype Abbrev = Abbrev(entry: nat, tag: nat, children: byte, attrs: seq<Attr>)

  /** How process_abbrev_section ends: the offset it returns, NULL, or data that ran out under it. */
  datatype Ending = Resume(pos: nat) | Null | RanOut

  // ----- parsing -----

  /** The attribute loop from p: the attributes before the zero name, and the offset after its form. */
  function ParseAttrs(data: seq<byte>, p: nat): (r: (seq<Attr>, Option<nat>))
    ensures r.1.Some? ==> p < r.1.value <= |data|
    decreases |data| - p
  {
    match ReadUnsigned(data, p)
    case Overrun => ([], None)
    case Got(attribute, q) =>
      match ReadUnsigned(data, q)
      case Overrun => ([], None)
      case Got(form, next) =>
        if attribute == 0 then ([], Some(next))
        else
          var (rest, e) := ParseAttrs(data, next);
          ([Attr(attribute, form)] + rest, e)
  }

  /** The section from p to end: the abbreviations added and how the call ends. */
  function Parse(data: seq<byte>, p: nat, end: nat): (seq<Abbrev>, Ending)
    decreases end - p
  {
    if p >= end then ([], Null)
    else
      match ReadUnsigned(data, p)
      case Overrun => ([], RanOut)
      case Got(entry, q) =>
        if entry == 0 then ([], if q == end then Null else Resume(q))
        else
          match ReadUnsigned(data, q)
          case Overrun => ([], RanOut)
          case Got(tag, c) =>
            if c >= |data| then ([], RanOut)
            else
              var (attrs, e) := ParseAttrs(data, c + 1);
              var abbrev := Abbrev(entry, tag, data[c], attrs);
              if e.None? then ([abbrev], RanOut)
              else
                var (rest, ending) := Parse(data, e.value, end);
                ([abbrev] + rest, ending)
  }

  // ----- encoding -----

  function EncodeAttrs(attrs: seq<Attr>): seq<byte>
  {
    if attrs == [] then EncodeUnsigned(0) + EncodeUnsigned(0)
    else EncodeUnsigned(attrs[0].attribute) + (EncodeUnsigned(attrs[0].form) + EncodeAttrs(attrs[1..]))
  }

  function EncodeAbbrev(a: Abbrev): seq<byte>
  {
    EncodeUnsigned(a.entry) + (EncodeUnsigned(a.tag) + ([a.children] + EncodeAttrs(a.attrs)))
  }

  /** A set of abbreviations with its terminating zero. */
  function EncodeSet(abbrevs: seq<Abbrev>): seq<byte>
  {
    if abbrevs == [] then EncodeUnsigned(0) else EncodeAbbrev(abbrevs[0]) + EncodeSet(abbrevs[1..])
  }

  predicate AttrFits(a: Attr) { 0 < a.attribute < TWO_64 && a.form < TWO_64 }

  predicate AbbrevFits(a: Abbrev)
  {
    0 < a.entry < TWO_64 && a.tag < TWO_64 && forall k :: 0 <= k < |a.attrs| ==> AttrFits(a.attrs[k])
  }

  /** Two values read one after the other. */
  lemma ReadPair(data: seq<byte>, p: nat, x: nat, y: nat, rest: seq<byte>)
    requires x < TWO_64 && y < TWO_64 && At(data, p, EncodeUnsigned(x) + (EncodeUnsigned(y) + rest))
    ensures var q := p + |EncodeUnsigned(x)|;
            var next := q + |EncodeUnsigned(y)|;
            ReadUnsigned(data, p) == Got(x, q) && ReadUnsigned(data, q) == Got(y, next) && At(data, next, rest)
  {
    hide At, EncodeUnsigned, ReadUnsigned;
    AtSplit(data, p, EncodeUnsigned(x), EncodeUnsigned(y) + rest);
    AtSplit(data, p + |EncodeUnsigned(x)|, EncodeUnsigned(y), rest);
    UnsignedRoundTrip(data, p, x);
    UnsignedRoundTrip(data, p + |EncodeUnsigned(x)|, y);
  }

  lemma {:induction false} AttrsRoundTrip(data: seq<byte>, p: nat, attrs: seq<Attr>)
    requires (forall k :: 0 <= k < |attrs| ==> AttrFits(attrs[k])) && At(data, p, EncodeAttrs(attrs))
    ensures ParseAttrs(data, p) == (attrs, Some(p + |EncodeAttrs(attrs)|))
    decreases attrs
  {
    hide At, EncodeUnsigned, ReadUnsigned;
    if attrs == [] {
      assert EncodeUnsigned(0) + EncodeUnsigned(0) == EncodeUnsigned(0) + (EncodeUnsigned(0) + []);
      ReadPair(data, p, 0, 0, []);
    } else {
      var a, rest := attrs[0], EncodeAttrs(attrs[1..]);
      ReadPair(data, p, a.attribute, a.form, rest);
      AttrsRoundTrip(data, p + |EncodeUnsigned(a.attribute)| + |EncodeUnsigned(a.form)|, attrs[1..]);
      FirstAndRest(attrs);
    }
  }

  /** The pieces of one encoded abbreviation, each read back where it lies. */
  lemma AbbrevPieces(data: seq<byte>, p: nat, a: Abbrev)
    requires AbbrevFits(a) && At(data, p, EncodeAbbrev(a))
    ensures var q := p + |EncodeUnsigned(a.entry)|;
            var c := q + |EncodeUnsigned(a.tag)|;
            && ReadUnsigned(data, p) == Got(a.entry, q) && ReadUnsigned(data, q) == Got(a.tag, c)
            && c < |data| && data[c] == a.children
            && ParseAttrs(data, c + 1) == (a.attrs, Some(p + |EncodeAbbrev(a)|))
  {
    hide At, ReadUnsigned, ParseAttrs, EncodeUnsigned, EncodeAttrs;
    var rest := [a.children] + EncodeAttrs(a.attrs);
    ReadPair(data, p, a.entry, a.tag, rest);
    var c := p + |EncodeUnsigned(a.entry)| + |EncodeUnsigned(a.tag)|;
    AtSplit(data, c, [a.children], EncodeAttrs(a.attrs));
    AtByte(data, c, a.children);
    AttrsRoundTrip(data, c + 1, a.attrs);
  }

  /** Parsing the encoding of any set of abbreviations rebuilds exactly that set, in order, and answers the
      offset after the terminator, or NULL when that is the end of the section. */
  lemma {:induction false} SetRoundTrip(data: seq<byte>, p: nat, end: nat, abbrevs: seq<Abbrev>)
    requires (forall k :: 0 <= k < |abbrevs| ==> AbbrevFits(abbrevs[k]))
    requires At(data, p, EncodeSet(abbrevs)) && p + |EncodeSet(abbrevs)| <= end
    ensures var next := p + |EncodeSet(abbrevs)|;
            Parse(data, p, end) == (abbrevs, if next == end then Null else Resume(next))
    decreases abbrevs
  {
    hide At, EncodeUnsigned, EncodeAbbrev, ReadUnsigned, ParseAttrs, AbbrevFits;
    if abbrevs == [] {
      UnsignedRoundTrip(data, p, 0);
      Nonempty(0);
    } else {
      var a, rest := abbrevs[0], EncodeSet(abbrevs[1..]);
      AtSplit(data, p, EncodeAbbrev(a), rest);
      var next := p + |EncodeAbbrev(a)|;
      SetRoundTrip(data, next, end, abbrevs[1..]);
      ParseFirst(data, p, end, a);
      FirstAndRest(abbrevs);
    }
  }

  lemma Nonempty(v: nat)
    ensures |EncodeUnsigned(v)| > 0
  {
  }

  lemma ParseFirst(data: seq<byte>, p: nat, end: nat, a: Abbrev)
    requires AbbrevFits(a) && At(data, p, EncodeAbbrev(a)) && p + |EncodeAbbrev(a)| <= end
    ensures var (rest, ending) := Parse(data, p + |EncodeAbbrev(a)|, end);
            Parse(data, p, end) == ([a] + rest, ending)
  {
    hide At, EncodeUnsigned, ReadUnsigned, ParseAttrs;
    AbbrevPieces(data, p, a);
    Nonempty(a.entry);
    assert 0 < |EncodeAbbrev(a)|;
    assert a == Abbrev(a.entry, a.tag, a.children, a.attrs);
  }

  // ----- the linked lists -----

  /** struct abbrev_attr; the ghost fields say whose attribute it is and which. */
  class AttrNode {
    var attribute: nat
    var form: nat
    var next: AttrNode?
    ghost const owner: EntryNode
    ghost const index: nat

    constructor (attribute: nat, form: nat, ghost owner: EntryNode, ghost index: nat)
      ensures this.attribute == attribute && this.form == form && next == null
      ensures this.owner == owner && this.index == index
    {
      this.attribute, this.form, this.next := attribute, form, null;
      this.owner, this.index := owner, index;
    }
  }

  /** struct abbrev_entry */
  class EntryNode {
    var entry: nat
    var tag: nat
    var children: byte
    var firstAttr: AttrNode?
    var lastAttr: AttrNode?
    var next: EntryNode?
    ghost var attrNodes: seq<AttrNode>
    ghost const index: nat

    constructor (entry: nat, tag: nat, children: byte, ghost index: nat)
      ensures this.entry == entry && this.tag == tag && this.children == children && this.index == index
      ensures next == null && Owned() == {} && Represents(Abbrev(entry, tag, children, []))
    {
      this.entry, this.tag, this.children := entry, tag, children;
      firstAttr, lastAttr, next := null, null, null;
      attrNodes := [];
      this.index := index;
    }

    ghost function Owned(): set<AttrNode>
      reads this`attrNodes
    {
      set a | a in attrNodes
    }

    /** The j-th node knows its place, holds the j-th attribute and leads to the next. */
    ghost predicate AttrOk(j: nat, attrs: seq<Attr>)
      requires j < |attrNodes| == |attrs|
      reads this`attrNodes, attrNodes[j]
    {
      && attrNodes[j].owner == this && attrNodes[j].index == j
      && attrNodes[j].attribute == attrs[j].attribute && attrNodes[j].form == attrs[j].form
      && attrNodes[j].next == if j + 1 < |attrNodes| then attrNodes[j + 1] else null
    }

    /** The entry with its attribute list, first to last along next, is the abbreviation v. */
    ghost predicate Represents(v: Abbrev)
      reads this`entry, this`tag, this`children, this`firstAttr, this`lastAttr, this`attrNodes, Owned()
    {
      && entry == v.entry && tag == v.tag && children == v.children && |attrNodes| == |v.attrs|
      && firstAttr == (if attrNodes == [] then null else attrNodes[0])
      && lastAttr == (if attrNodes == [] then null else attrNodes[|attrNodes| - 1])
      && forall j :: 0 <= j < |attrNodes| ==> AttrOk(j, v.attrs)
    }

    /** The body of add_abbrev_attr for the entry last_abbrev points at. */
    method AppendAttr(attribute: nat, form: nat, ghost v: Abbrev) returns (attr: AttrNode)
      requires Represents(v)
      modifies this, Owned()
      ensures fresh(attr) && Owned() == old(Owned()) + {attr}
      ensures next == old(next) && Represents(v.(attrs := v.attrs + [Attr(attribute, form)]))
    {
      ghost var m := |attrNodes|;
      ghost var attrs := v.attrs + [Attr(attribute, form)];
      attr := new AttrNode(attribute, form, this, m);
      if firstAttr == null {
        firstAttr := attr;
      } else {
        assert AttrOk(m - 1, v.attrs);
        lastAttr.next := attr;
      }
      lastAttr := attr;
      attrNodes := attrNodes + [attr];
      forall j | 0 <= j < |attrNodes| ensures AttrOk(j, attrs) {
        if j < m { assert old(AttrOk(j, v.attrs)) && old(AttrOk(m - 1, v.attrs)); }
      }
    }
  }

  /** The last abbreviation with more attributes. */
  function WithAttrs(abbrevs: seq<Abbrev>, more: seq<Attr>): (r: seq<Abbrev>)
    requires abbrevs != []
    ensures r != []
  {
    var n := |abbrevs| - 1;
    abbrevs[..n] + [abbrevs[n].(attrs := abbrevs[n].attrs + more)]
  }

  lemma WithAttrsTwice(abbrevs: seq<Abbrev>, a: seq<Attr>, b: seq<Attr>)
    requires abbrevs != []
    ensures WithAttrs(WithAttrs(abbrevs, a), b) == WithAttrs(abbrevs, a + b)
  {
    var n := |abbrevs| - 1;
    assert abbrevs[n].attrs + a + b == abbrevs[n].attrs + (a + b);
  }

  lemma WithNoAttrs(abbrevs: seq<Abbrev>)
    requires abbrevs != []
    ensures WithAttrs(abbrevs, []) == abbrevs
  {
    var n := |abbrevs| - 1;
    assert abbrevs[n].attrs + [] == abbrevs[n].attrs;
  }

  /** first_abbrev and last_abbrev; contents is what the lists stand for. */
  class AbbrevList {
    var first: EntryNode?
    var last: EntryNode?
    ghost var nodes: seq<EntryNode>
    ghost var contents: seq<Abbrev>
    ghost var repr: set<object>

    ghost predicate Valid()
      reads this, repr
    {
      && this in repr && |nodes| == |contents|
      && first == (if nodes == [] then null else nodes[0])
      && last == (if nodes == [] then null else nodes[|nodes| - 1])
      && (forall i :: 0 <= i < |nodes| ==> nodes[i] in repr && NodeOk(i))
      && (forall i :: 0 <= i < |nodes| ==> nodes[i].Owned() <= repr && nodes[i].Represents(contents[i]))
    }

    ghost predicate NodeOk(i: nat)
      requires i < |nodes|
      reads this`nodes, nodes[i]
    {
      nodes[i].index == i && nodes[i].next == if i + 1 < |nodes| then nodes[i + 1] else null
    }

    constructor ()
      ensures Valid() && contents == [] && fresh(repr)
    {
      first, last, nodes, contents := null, null, [], [];
      repr := {this};
    }

    /** add_abbrev */
    method AddAbbrev(entry: nat, tag: nat, children: byte)
      requires Valid()
      modifies repr
      ensures Valid() && fresh(repr - old(repr))
      ensures contents == old(contents) + [Abbrev(entry, tag, children, [])]
    {
      hide EntryNode.Represents, EntryNode.Owned;
      var node := new EntryNode(entry, tag, children, |nodes|);
      ghost var n := |nodes|;
      if first == null {
        first := node;
      } else {
        last.next := node;
      }
      last := node;
      nodes := nodes + [node];
      contents := contents + [Abbrev(entry, tag, children, [])];
      repr := repr + {node};
      assert forall i :: 0 <= i < n ==> nodes[i] == old(nodes[i]) && contents[i] == old(contents[i]);
      forall i | 0 <= i < n ensures NodeOk(i) { assert old(NodeOk(i)); }
    }

    /** add_abbrev_attr: appends to the attributes of the last entry. */
    method AddAbbrevAttr(attribute: nat, form: nat)
      requires Valid() && contents != []
      modifies repr
      ensures Valid() && fresh(repr - old(repr))
      ensures contents == WithAttrs(old(contents), [Attr(attribute, form)])
    {
      hide EntryNode.Represents, EntryNode.Owned;
      ghost var n := |nodes| - 1;
      ghost var v := contents[n];
      assert NodeOk(n) && nodes[n].Represents(v);
      EntriesApart(n);
      var attr := last.AppendAttr(attribute, form, v);
      contents := contents[..n] + [v.(attrs := v.attrs + [Attr(attribute, form)])];
      repr := repr + {attr};
      forall i | 0 <= i < n ensures nodes[i].Represents(contents[i]) {
        assert old(nodes[i].Represents(contents[i])) && nodes[i] != last;
      }
      forall i | 0 <= i < |nodes| ensures NodeOk(i) { assert old(NodeOk(i)); }
    }

    /** What appending to entry n may touch is not part of another entry. */
    lemma EntriesApart(n: nat)
      requires Valid() && n < |nodes|
      ensures forall i :: 0 <= i < |nodes| && i != n ==> nodes[i] != nodes[n]
      ensures forall i :: 0 <= i < |nodes| && i != n ==> nodes[i].Owned() !! nodes[n].Owned()
    {
      forall i | 0 <= i < |nodes| && i != n ensures nodes[i] != nodes[n] { assert NodeOk(i) && NodeOk(n); }
      forall i | 0 <= i < |nodes| && i != n ensures nodes[i].Owned() !! nodes[n].Owned() {
        forall j, k | 0 <= j < |nodes[i].attrNodes| && 0 <= k < |nodes[n].attrNodes|
          ensures nodes[i].attrNodes[j] != nodes[n].attrNodes[k]
        {
          assert nodes[i].Represents(contents[i]) && nodes[i].AttrOk(j, contents[i].attrs);
          assert nodes[n].Represents(contents[n]) && nodes[n].AttrOk(k, contents[n].attrs);
        }
      }
    }
  }

  /** The do-while loop over the attributes of the entry just added. */
  method ProcessAttrs(list: AbbrevList, data: seq<byte>, start: nat) returns (next: Option<nat>)
    requires list.Valid() && list.contents != [] && start <= |data|
    modifies list.repr
    ensures list.Valid() && fresh(list.repr - old(list.repr))
    ensures next == ParseAttrs(data, start).1
    ensures list.contents == WithAttrs(old(list.contents), ParseAttrs(data, start).0)
  {
    hide WithAttrs, AbbrevList.Valid, ParseAttrs;
    var p := start;
    ghost var done: seq<Attr> := [];
    WithNoAttrs(list.contents);
    assert [] + ParseAttrs(data, start).0 == ParseAttrs(data, start).0;
    while true
      invariant list.Valid() && fresh(list.repr - old(list.repr)) && list.contents != []
      invariant p <= |data|
      invariant list.contents == WithAttrs(old(list.contents), done)
      invariant ParseAttrs(data, start) == (done + ParseAttrs(data, p).0, ParseAttrs(data, p).1)
      decreases |data| - p
    {
      var attribute := ReadLeb128(data, p, false);
      AttrsEnd(data, p, done);
      if attribute.Overrun? { return None; }
      var form := ReadLeb128(data, attribute.next, false);
      if form.Overrun? { return None; }
      if attribute.value == 0 { return Some(form.next); }
      list.AddAbbrevAttr(attribute.value, form.value);
      ghost var attr := Attr(attribute.value, form.value);
      WithAttrsTwice(old(list.contents), done, [attr]);
      AttrsSoFar(data, p, done);
      done := done + [attr];
      p := form.next;
    }
  }

  lemma AttrsEnd(data: seq<byte>, p: nat, done: seq<Attr>)
    ensures var name := ReadUnsigned(data, p);
            && (name.Overrun? ==> ParseAttrs(data, p) == ([], None) && done + ParseAttrs(data, p).0 == done)
            && (name.Got? ==>
                  var form := ReadUnsigned(data, name.next);
                  && (form.Overrun? ==> ParseAttrs(data, p) == ([], None) && done + ParseAttrs(data, p).0 == done)
                  && (form.Got? && name.value == 0 ==>
                        ParseAttrs(data, p) == ([], Some(form.next)) && done + ParseAttrs(data, p).0 == done))
  {
  }

  lemma AttrsSoFar(data: seq<byte>, p: nat, done: seq<Attr>)
    requires ReadUnsigned(data, p).Got? && ReadUnsigned(data, p).value != 0
    requires ReadUnsigned(data, ReadUnsigned(data, p).next).Got?
    ensures var name := ReadUnsigned(data, p);
            var form := ReadUnsigned(data, name.next);
            done + ParseAttrs(data, p).0 == done + [Attr(name.value, form.value)] + ParseAttrs(data, form.next).0
            && ParseAttrs(data, p).1 == ParseAttrs(data, form.next).1
  {
    var name := ReadUnsigned(data, p);
    var form := ReadUnsigned(data, name.next);
    var rest := ParseAttrs(data, form.next).0;
    assert done + ([Attr(name.value, form.value)] + rest) == done + [Attr(name.value, form.value)] + rest;
  }

  /** process_abbrev_section: nothing happens while a set is still loaded. */
  method ProcessAbbrevSection(list: AbbrevList, data: seq<byte>, start: nat, end: nat) returns (ending: Ending)
    requires list.Valid() && start <= |data|
    modifies list.repr
    ensures list.Valid() && fresh(list.repr - old(list.repr))
    ensures if old(list.contents) != [] then ending == Null && list.contents == old(list.contents)
            else (list.contents, ending) == Parse(data, start, end)
  {
    if list.first != null { return Null; }
    ending := LoadSet(list, data, start, end);
  }

  /** The loop over the entries, into an empty list. */
  method LoadSet(list: AbbrevList, data: seq<byte>, start: nat, end: nat) returns (ending: Ending)
    requires list.Valid() && start <= |data| && list.contents == []
    modifies list.repr
    ensures list.Valid() && fresh(list.repr - old(list.repr))
    ensures (list.contents, ending) == Parse(data, start, end)
  {
    hide AbbrevList.Valid, ParseAttrs, Parse, WithAttrs;
    var p := start;
    assert [] + Parse(data, start, end).0 == Parse(data, start, end).0;
    while p < end
      invariant list.Valid() && fresh(list.repr - old(list.repr))
      invariant p <= |data|
      invariant Parse(data, start, end) == (list.contents + Parse(data, p, end).0, Parse(data, p, end).1)
      decreases end - p
    {
      ghost var done := list.contents;
      SetEnd(data, p, end, done);
      var entry := ReadLeb128(data, p, false);
      if entry.Overrun? { return RanOut; }
      if entry.value == 0 { return if entry.next == end then Null else Resume(entry.next); }
      var tag := ReadLeb128(data, entry.next, false);
      if tag.Overrun? || tag.next >= |data| { return RanOut; }
      var children := data[tag.next];
      list.AddAbbrev(entry.value, tag.value, children);
      var next := ProcessAttrs(list, data, tag.next + 1);
      ghost var added := Abbrev(entry.value, tag.value, children, ParseAttrs(data, tag.next + 1).0);
      FirstAttrs(done, added);
      AbbrevsSoFar(data, p, end, done, added);
      if next.None? { return RanOut; }
      p := next.value;
    }
    SetEnd(data, p, end, list.contents);
    return Null;
  }

  /** The ways the entry loop stops without adding. */
  lemma SetEnd(data: seq<byte>, p: nat, end: nat, done: seq<Abbrev>)
    ensures var entry, loaded := ReadUnsigned(data, p), Parse(data, p, end);
            && (p >= end ==> loaded == ([], Null))
            && (p < end && entry.Overrun? ==> loaded == ([], RanOut))
            && (p < end && entry.Got? && entry.value == 0 ==> loaded == ([], if entry.next == end then Null else Resume(entry.next)))
            && (p < end && entry.Got? && entry.value != 0 ==>
                  var tag := ReadUnsigned(data, entry.next);
                  tag.Overrun? || tag.next >= |data| ==> loaded == ([], RanOut))
            && (loaded.0 == [] ==> done + loaded.0 == done)
  {
    hide ParseAttrs, ReadUnsigned;
  }

  lemma FirstAttrs(done: seq<Abbrev>, a: Abbrev)
    ensures WithAttrs(done + [a.(attrs := [])], a.attrs) == done + [a]
  {
    assert (done + [a.(attrs := [])])[..|done|] == done;
    assert [] + a.attrs == a.attrs;
  }

  lemma AbbrevsSoFar(data: seq<byte>, p: nat, end: nat, done: seq<Abbrev>, added: Abbrev)
    requires p < end && ReadUnsigned(data, p).Got? && ReadUnsigned(data, p).value != 0
    requires var tag := ReadUnsigned(data, ReadUnsigned(data, p).next);
             && tag.Got? && tag.next < |data|
             && added == Abbrev(ReadUnsigned(data, p).value, tag.value, data[tag.next], ParseAttrs(data, tag.next + 1).0)
    ensures var e := ParseAttrs(data, ReadUnsigned(data, ReadUnsigned(data, p).next).next + 1).1;
            if e.None? then (done + Parse(data, p, end).0, Parse(data, p, end).1) == (done + [added], RanOut)
            else (done + Parse(data, p, end).0, Parse(data, p, end).1)
                 == (done + [added] + Parse(data, e.value, end).0, Parse(data, e.value, end).1)
  {
    hide ParseAttrs, ReadUnsigned;
    var e := ParseAttrs(data, ReadUnsigned(data, ReadUnsigned(data, p).next).next + 1).1;
    if e.Some? {
      var rest := Parse(data, e.value, end).0;
      assert done + ([added] + rest) == done + [added] + rest;
    }
  }
}
