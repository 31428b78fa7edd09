/**
 The state file (crates/daemon/src/state.rs): its text, the disk under it as one
 value, and the mutable directory that the daemon really writes to.

 JSON itself is abstract. What counts is how serde_json treats bytes that are not
 one whole document: nothing but blanks may follow it, and no proper prefix of it
 is one. Files are modelled as inodes: opening a name for writing truncates
 whatever it names, a write replaces bytes from the start and leaves those beyond
 it, and an open handle keeps referring to its inode after a rename.
 */
module Storage {
  import opened Common
  import opened Counters

  // ---- Text -------------------------------------------------------------------

  type Text = string

  predicate IsBlank(c: char) {
    c == ' ' || c == '\n' || c == '\r' || c == '\t'
  }

  predicate Blank(t: Text) {
    forall i :: 0 <= i < |t| ==> IsBlank(t[i])
  }

  /** `serde_json::to_vec_pretty` and `from_slice`. */
  datatype Codec = Codec(encode: View -> Text, decode: Text -> Option<View>)
  {
    ghost predicate Writes(v: View) {
      var t := encode(v);
      && t != "" && !IsBlank(t[|t| - 1])
      && (forall rest: Text :: decode(t + rest) == if Blank(rest) then Some(Persisted(v)) else None)
      && (forall k :: 0 <= k < |t| ==> decode(t[..k]) == None)
    }

    ghost predicate Valid() {
      forall v: View :: Writes(v)
    }
  }

  lemma DecodesWhole(c: Codec, v: View)
    requires c.Writes(v)
    ensures c.decode(c.encode(v)) == Some(Persisted(v))
  {
    assert c.encode(v) + "" == c.encode(v);
  }

  lemma NothingIsNoDocument(c: Codec)
    requires c.Valid()
    ensures c.decode("") == None
  {
    assert c.Writes(EMPTY);
    assert c.encode(EMPTY)[..0] == "";
  }

  function Min(x: nat, y: nat): nat {
    if x < y then x else y
  }

  /** A file holding `before` after the first `k` bytes of `body` were written at its start. */
  function Overwritten(before: Text, body: Text, k: nat): Text
    requires k <= |body|
  {
    body[..k] + if k < |before| then before[k..] else []
  }

  /** Nothing but blanks of the old text lies beyond a new one of length `n`. */
  predicate Covers(n: nat, before: Text) {
    |before| <= n || Blank(before[n..])
  }

  /** The write is complete, wrote nothing, or left nothing of the old text behind it. */
  predicate SafeWrite(n: nat, before: nat, k: nat) {
    k == 0 || n <= k || before <= k
  }

  /** What a file holds after a safe write: an old text, no document, or the new view. */
  lemma AfterSafeWrite(c: Codec, before: Text, v: View, k: nat)
    requires c.Writes(v) && k <= |c.encode(v)| && SafeWrite(|c.encode(v)|, |before|, k)
    ensures var after := Overwritten(before, c.encode(v), k);
            if k == 0 then after == before
            else if k < |c.encode(v)| then c.decode(after) == None
            else c.decode(after) == if Covers(k, before) then Some(Persisted(v)) else None
  {
    var t := c.encode(v);
    if k == |t| {
      assert t[..k] == t;
      if |before| <= k {
        DecodesWhole(c, v);
        assert Overwritten(before, t, k) == t;
      }
    } else if 0 < k {
      assert Overwritten(before, t, k) == t[..k];
    }
  }

  // ---- Which writes are safe ----------------------------------------------------

  /** The file holds neither an old nor a new view, but something that parses. */
  ghost predicate Forges(c: Codec, a: View, b: View, k: nat) {
    k <= |c.encode(a)|
    && var got := c.decode(Overwritten(c.encode(b), c.encode(a), k));
       got.Some? && got.value != Persisted(a) && got.value != Persisted(b)
  }

  /** Under some format for all views, such a write of `n` bytes over `m` produces a forgery. */
  ghost predicate CanForge(n: nat, m: nat, k: nat) {
    exists c: Codec, a: View, b: View ::
      && c.Valid() && |c.encode(a)| == n && |c.encode(b)| == m
      && Forges(c, a, b, k)
  }

  function Repeat(ch: char, n: nat): (t: Text)
    ensures |t| == n && forall i :: 0 <= i < n ==> t[i] == ch
  {
    seq(n, i => ch)
  }

  /** `t` is this document, with nothing but blanks after it. */
  predicate IsDocument(t: Text, document: Text) {
    |document| <= |t| && t[..|document|] == document && Blank(t[|document|..])
  }

  /**
   A format made from another: two views print as nothing but `a`s and nothing but
   `b`s, one mixture of the two parses as a third view, and every other document is
   the other format's with a `q` in front.
   */
  function MixingCodec(other: Codec, a: View, b: View, third: View, n: nat, m: nat, k: nat): Codec
    requires k <= m
  {
    Codec((v: View) =>
            if v == a then Repeat('a', n)
            else if v == b then Repeat('b', m)
            else "q" + other.encode(v),
          (t: Text) => DecodeMixed(other, a, b, third, n, m, k, t))
  }

  function DecodeMixed(other: Codec, a: View, b: View, third: View, n: nat, m: nat, k: nat, t: Text): Option<View>
    requires k <= m
  {
    if t != "" && t[0] == 'q' then other.decode(t[1..])
    else if IsDocument(t, Repeat('a', n)) then Some(Persisted(a))
    else if IsDocument(t, Repeat('b', m)) then Some(Persisted(b))
    else if t == Repeat('a', k) + Repeat('b', m - k) then Some(third)
    else None
  }

  lemma MixingCodecWritesA(other: Codec, a: View, b: View, third: View, n: nat, m: nat, k: nat)
    requires 0 < k < n && k < m
    ensures MixingCodec(other, a, b, third, n, m, k).Writes(a)
  {
    var c := MixingCodec(other, a, b, third, n, m, k);
    var t, mixed := Repeat('a', n), Repeat('a', k) + Repeat('b', m - k);
    assert mixed[k] == 'b' && t[k] == 'a' && t[0] == 'a' && Repeat('b', m)[0] == 'b';
    forall rest: Text
      ensures c.decode(t + rest) == if Blank(rest) then Some(Persisted(a)) else None
    {
      var u := t + rest;
      assert c.decode(u) == DecodeMixed(other, a, b, third, n, m, k, u);
      assert u[..n] == t && u[n..] == rest && u[k] == 'a' && u[0] == 'a';
      if m <= |u| {
        assert u[..m][0] == 'a';
      }
    }
    forall j | 0 <= j < n
      ensures c.decode(t[..j]) == None
    {
      assert c.decode(t[..j]) == DecodeMixed(other, a, b, third, n, m, k, t[..j]);
      if m <= j {
        assert t[..j][..m][0] == 'a' && t[..j][k] == 'a';
      }
    }
  }

  lemma MixingCodecWritesB(other: Codec, a: View, b: View, third: View, n: nat, m: nat, k: nat)
    requires 0 < k < n && k < m && a != b
    ensures MixingCodec(other, a, b, third, n, m, k).Writes(b)
  {
    var c := MixingCodec(other, a, b, third, n, m, k);
    var t, mixed := Repeat('b', m), Repeat('a', k) + Repeat('b', m - k);
    assert mixed[0] == 'a' && t[0] == 'b' && Repeat('a', n)[0] == 'a';
    forall rest: Text
      ensures c.decode(t + rest) == if Blank(rest) then Some(Persisted(b)) else None
    {
      var u := t + rest;
      assert c.decode(u) == DecodeMixed(other, a, b, third, n, m, k, u);
      assert u[..m] == t && u[m..] == rest && u[0] == 'b';
      if n <= |u| {
        assert u[..n][0] == 'b';
      }
    }
    forall j | 0 <= j < m
      ensures c.decode(t[..j]) == None
    {
      assert c.decode(t[..j]) == DecodeMixed(other, a, b, third, n, m, k, t[..j]);
      if 0 < j {
        assert t[..j][0] == 'b';
      }
      if n <= j {
        assert t[..j][..n][0] == 'b';
      }
    }
  }

  lemma MixingCodecWritesOther(other: Codec, a: View, b: View, third: View, n: nat, m: nat, k: nat, v: View)
    requires 0 < k < n && k < m && other.Writes(v) && v != a && v != b
    ensures MixingCodec(other, a, b, third, n, m, k).Writes(v)
  {
    var c, e := MixingCodec(other, a, b, third, n, m, k), other.encode(v);
    var t := "q" + e;
    assert t[|t| - 1] == e[|e| - 1];
    forall rest: Text
      ensures c.decode(t + rest) == if Blank(rest) then Some(Persisted(v)) else None
    {
      assert c.decode(t + rest) == DecodeMixed(other, a, b, third, n, m, k, t + rest);
      assert (t + rest)[1..] == e + rest;
    }
    forall j | 0 <= j < |t|
      ensures c.decode(t[..j]) == None
    {
      assert c.decode(t[..j]) == DecodeMixed(other, a, b, third, n, m, k, t[..j]);
      if 0 < j {
        assert t[..j][1..] == e[..j - 1];
      }
    }
  }

  lemma MixingCodecValid(other: Codec, a: View, b: View, third: View, n: nat, m: nat, k: nat)
    requires other.Valid() && 0 < k < n && k < m && a != b
    ensures MixingCodec(other, a, b, third, n, m, k).Valid()
  {
    var c := MixingCodec(other, a, b, third, n, m, k);
    forall v: View
      ensures c.Writes(v)
    {
      if v == a {
        MixingCodecWritesA(other, a, b, third, n, m, k);
      } else if v == b {
        MixingCodecWritesB(other, a, b, third, n, m, k);
      } else {
        assert other.Writes(v);
        MixingCodecWritesOther(other, a, b, third, n, m, k, v);
      }
    }
  }

  lemma MixtureForges(other: Codec, a: View, b: View, third: View, n: nat, m: nat, k: nat)
    requires 0 < k < n && k < m && a != b && third != Persisted(a) && third != Persisted(b)
    ensures var c := MixingCodec(other, a, b, third, n, m, k);
            |c.encode(a)| == n && |c.encode(b)| == m && Forges(c, a, b, k)
  {
    var c := MixingCodec(other, a, b, third, n, m, k);
    assert c.encode(a) == Repeat('a', n) && c.encode(b) == Repeat('b', m);
    var mixed := Repeat('a', k) + Repeat('b', m - k);
    assert Overwritten(c.encode(b), c.encode(a), k) == mixed;
    assert c.decode(mixed) == DecodeMixed(other, a, b, third, n, m, k, mixed);
    assert mixed[0] == 'a' && mixed[k] == 'b';
    if n <= m {
      assert mixed[..n][k] == 'b';
    }
    assert mixed[..m][0] == 'a' && Repeat('b', m)[0] == 'b';
    assert c.decode(mixed) == Some(third);
  }

  /**
   A write of `n` bytes that stops after `k` over a file of `m` bytes can leave a
   document that nobody wrote exactly if it stops in between, short of both ends.
   Otherwise no format that tells whole documents from parts can be fooled. The
   equivalence ranges over the formats for all views, of which `some` is one.
   */
  lemma ForgesExactlyWhen(some: Codec, n: nat, m: nat, k: nat)
    requires some.Valid() && 0 < n && 0 < m && k <= n
    ensures CanForge(n, m, k) <==> !SafeWrite(n, m, k)
  {
    if SafeWrite(n, m, k) {
      forall c: Codec, a: View, b: View | c.Valid() && |c.encode(a)| == n && |c.encode(b)| == m
        ensures !Forges(c, a, b, k)
      {
        assert c.Writes(a) && c.Writes(b);
        AfterSafeWrite(c, c.encode(b), a, k);
        DecodesWhole(c, b);
      }
    } else {
      var a, b, third := View(Some(0), map[], {}), View(Some(1), map[], {}), View(Some(2), map[], {});
      MixingCodecValid(some, a, b, third, n, m, k);
      MixtureForges(some, a, b, third, n, m, k);
      var c := MixingCodec(some, a, b, third, n, m, k);
      assert c.Valid() && |c.encode(a)| == n && |c.encode(b)| == m && Forges(c, a, b, k);
    }
  }

  // ---- The disk as a value --------------------------------------------------------

  datatype Disk = Disk(codec: Codec, nodes: seq<Text>, path: Option<nat>, tmp: Option<nat>)
  {
    predicate Valid() {
      && (path.Some? ==> path.value < |nodes|)
      && (tmp.Some? ==> tmp.value < |nodes|)
      && (path.Some? && tmp.Some? ==> path.value != tmp.value)
    }

    /** Opens the temporary name for writing: truncates it or creates it. */
    function Open(): (r: (Disk, nat))
      requires Valid()
      ensures r.0.Valid() && r.0.tmp == Some(r.1) && r.0.codec == codec
      ensures r.0.path == path && |nodes| <= |r.0.nodes| <= |nodes| + 1
      ensures forall i :: 0 <= i < |nodes| && i != r.1 ==> r.0.nodes[i] == nodes[i]
      ensures r.0.nodes[r.1] == "" && path != Some(r.1)
    {
      match tmp
      case Some(n) => (this.(nodes := nodes[n := ""]), n)
      case None => (this.(nodes := nodes + [""], tmp := Some(|nodes|)), |nodes|)
    }

    /** How many bytes of the view's text a write gets out; `cut` is where it fails. */
    function Reach(v: View, cut: Option<nat>): (k: nat)
      ensures k <= |codec.encode(v)|
    {
      if cut.None? then |codec.encode(v)| else Min(cut.value, |codec.encode(v)|)
    }

    /** Writes a view through an open handle, up to where the write fails. */
    function Fill(fd: nat, v: View, cut: Option<nat>): Disk
      requires fd < |nodes|
    {
      this.(nodes := nodes[fd := Overwritten(nodes[fd], codec.encode(v), Reach(v, cut))])
    }

    predicate SafeFill(fd: nat, v: View, cut: Option<nat>)
      requires fd < |nodes|
    {
      SafeWrite(|codec.encode(v)|, |nodes[fd]|, Reach(v, cut))
    }

    /** Renames the temporary file over the real one. */
    function Rename(): Disk
      requires tmp.Some?
    {
      this.(path := tmp, tmp := None)
    }

    function ViewAt(i: nat): Option<View>
      requires i < |nodes|
    {
      match codec.decode(nodes[i])
      case Some(v) => Some(Persisted(v))
      case None => None
    }

    /** What a start finds: a missing or unparseable file means a new state. */
    function Load(): View
      requires Valid()
    {
      if path.None? then EMPTY
      else match ViewAt(path.value) case Some(v) => v case None => EMPTY
    }

    /** The state file is absent or holds one complete view. */
    predicate Whole()
      requires Valid()
    {
      path.Some? ==> ViewAt(path.value).Some?
    }
  }

  /** What a filled inode holds, if the write was safe. */
  lemma FilledView(disk: Disk, fd: nat, v: View, cut: Option<nat>)
    requires disk.codec.Valid() && fd < |disk.nodes| && disk.SafeFill(fd, v, cut)
    ensures var n, k := |disk.codec.encode(v)|, disk.Reach(v, cut);
            disk.Fill(fd, v, cut).ViewAt(fd)
            == if k == 0 then disk.ViewAt(fd)
               else if n <= k && Covers(n, disk.nodes[fd]) then Some(Persisted(v))
               else None
  {
    assert disk.codec.Writes(v);
    AfterSafeWrite(disk.codec, disk.nodes[fd], v, disk.Reach(v, cut));
  }

  // ---- The directory the daemon writes to -------------------------------------------

  datatype FileName = StateFile | Temporary

  class Files {
    const codec: Codec
    var inodes: seq<Text>
    var directory: map<FileName, nat>

    ghost function Model(): Disk
      reads this
    {
      Disk(codec, inodes, Inode(StateFile), Inode(Temporary))
    }

    function Inode(name: FileName): Option<nat>
      reads this
    {
      if name in directory then Some(directory[name]) else None
    }

    ghost predicate Valid()
      reads this
    {
      Model().Valid() && forall name :: name in directory ==> directory[name] < |inodes|
    }

    /** The bytes a reader of this name finds. */
    function Contents(name: FileName): Option<Text>
      requires Valid()
      reads this
    {
      if name in directory then Some(inodes[directory[name]]) else None
    }

    constructor (disk: Disk)
      requires disk.Valid()
      ensures Valid() && Model() == disk
    {
      codec, inodes := disk.codec, disk.nodes;
      directory := (if disk.path.Some? then map[StateFile := disk.path.value] else map[])
                   + (if disk.tmp.Some? then map[Temporary := disk.tmp.value] else map[]);
    }

    /** Opens a name for writing: what it names is emptied, for every other handle too. */
    method Create(name: FileName) returns (fd: nat)
      requires Valid()
      modifies this
      ensures Valid() && Contents(name) == Some("") && Inode(name) == Some(fd)
      ensures forall other :: other != name ==> Contents(other) == old(Contents(other))
      ensures old(name in directory) ==> fd == old(directory[name]) && |inodes| == |old(inodes)|
      ensures name == Temporary ==> (Model(), fd) == old(Model()).Open()
    {
      if name in directory {
        fd := directory[name];
        inodes := inodes[fd := ""];
      } else {
        fd := |inodes|;
        inodes := inodes + [""];
        directory := directory[name := fd];
      }
    }

    /**
     Writes from the start of an open file and fails after `cut` bytes. Whatever
     the file held beyond them stays, and so does every other file.
     */
    method Write(fd: nat, body: Text, cut: Option<nat>)
      requires Valid() && fd < |inodes|
      modifies this`inodes
      ensures Valid() && |inodes| == |old(inodes)|
      ensures var k := if cut.None? then |body| else Min(cut.value, |body|);
              && |inodes[fd]| == (if k < |old(inodes[fd])| then |old(inodes[fd])| else k)
              && inodes[fd][..k] == body[..k]
              && forall i :: k <= i < |old(inodes[fd])| ==> inodes[fd][i] == old(inodes[fd])[i]
      ensures forall i :: 0 <= i < |inodes| && i != fd ==> inodes[i] == old(inodes)[i]
    {
      var k := if cut.None? then |body| else Min(cut.value, |body|);
      var before := inodes[fd];
      var kept := if k < |before| then before[k..] else "";
      inodes := inodes[fd := body[..k] + kept];
    }

    /** Serializes a view and writes it. */
    method WriteView(fd: nat, v: View, cut: Option<nat>)
      requires Valid() && fd < |inodes|
      modifies this`inodes
      ensures Valid() && Model() == old(Model()).Fill(fd, v, cut)
    {
      ghost var before := Model();
      var body := codec.encode(v);
      Write(fd, body, cut);
      assert inodes[fd] == Overwritten(before.nodes[fd], body, before.Reach(v, cut));
      assert inodes == before.Fill(fd, v, cut).nodes;
    }

    /** Puts one file in another's place; a missing file is an error. */
    method Rename(from: FileName, onto: FileName) returns (ok: bool)
      requires Valid() && from != onto
      modifies this`directory
      ensures Valid() && ok == (old(Contents(from)) != None)
      ensures ok ==> Contents(onto) == old(Contents(from)) && Contents(from) == None
      ensures ok ==> Inode(onto) == old(Inode(from))
      ensures !ok ==> directory == old(directory)
    {
      ok := from in directory;
      if ok {
        directory := directory[onto := directory[from]] - {from};
      }
    }

    /** `State::load`: a missing or unparseable file is a new state. */
    method LoadState() returns (v: View)
      requires Valid()
      ensures match Contents(StateFile)
              case None => v == EMPTY
              case Some(text) =>
                match codec.decode(text)
                case None => v == EMPTY
                case Some(read) => v == Persisted(read)
      ensures v == Model().Load()
    {
      if StateFile !in directory {
        return EMPTY;
      }
      match codec.decode(inodes[directory[StateFile]]) {
        case Some(read) => v := Persisted(read);
        case None => v := EMPTY;
      }
    }
  }
}
