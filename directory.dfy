/**
 * The in-memory directory of dir.rs: a directory owns a map from names to
 * files and a map from names to subdirectories, with read and write
 * permission flags. Parent back-links are not part of this model.
 */
module Directories {

  /** `File`: a name, a content string and two permission flags (`File::new` leaves no parent). */
  datatype File = File(name: string, content: string, readPermission: bool, writePermission: bool)

  /** The kind column of a listing line. */
  datatype ItemKind = FileItem | DirectoryItem

  /** One line of the listing: a name, its kind and its size in bytes. */
  datatype Item = Item(name: string, kind: ItemKind, size: nat)

  /** What `print_directory_contents` reports: the directory's name, the two counts and the sorted lines. */
  datatype Listing = Listing(title: string, fileCount: nat, directoryCount: nat, items: seq<Item>)

  /** The order of Rust's `String`: lexicographic by characters, a proper prefix first. */
  predicate LexLe(a: string, b: string) {
    |a| == 0 || (|b| > 0 && (a[0] < b[0] || (a[0] == b[0] && LexLe(a[1..], b[1..]))))
  }

  lemma {:induction false} LexLeTotal(a: string, b: string)
    ensures LexLe(a, b) || LexLe(b, a)
  {
    if |a| > 0 && |b| > 0 && a[0] == b[0] {
      LexLeTotal(a[1..], b[1..]);
    }
  }

  lemma {:induction false} LexLeReflexive(a: string)
    ensures LexLe(a, a)
  {
    if |a| > 0 {
      LexLeReflexive(a[1..]);
    }
  }

  lemma {:induction false} LexLeTransitive(a: string, b: string, c: string)
    requires LexLe(a, b) && LexLe(b, c)
    ensures LexLe(a, c)
  {
    if |a| > 0 && a[0] == b[0] && b[0] == c[0] {
      LexLeTransitive(a[1..], b[1..], c[1..]);
    }
  }

  lemma {:induction false} LexLeAntisymmetric(a: string, b: string)
    requires LexLe(a, b) && LexLe(b, a)
    ensures a == b
  {
    if |a| > 0 {
      LexLeAntisymmetric(a[1..], b[1..]);
      assert a == [a[0]] + a[1..] && b == [b[0]] + b[1..];
    }
  }

  ghost predicate Sorted(s: seq<string>) {
    forall i, j :: 0 <= i < j < |s| ==> LexLe(s[i], s[j])
  }

  /** The first element of a sorted sequence is at most any of its elements. */
  lemma SortedHeadLeast(s: seq<string>, x: string)
    requires Sorted(s) && x in multiset(s)
    ensures LexLe(s[0], x)
  {
    var i :| 0 <= i < |s| && s[i] == x;
    if i == 0 {
      LexLeReflexive(x);
    }
  }

  lemma SortedTail(s: seq<string>)
    requires Sorted(s) && s != []
    ensures Sorted(s[1..])
    ensures multiset(s[1..]) == multiset(s) - multiset{s[0]}
  {
    assert s == [s[0]] + s[1..];
    forall i, j | 0 <= i < j < |s[1..]| ensures LexLe(s[1..][i], s[1..][j]) {
      assert s[1..][i] == s[i + 1] && s[1..][j] == s[j + 1];
    }
  }

  /**
   * Two sorted sequences with the same elements are equal, so the listing
   * does not depend on the order in which the hash maps yield their keys.
   */
  lemma {:induction false} SortedPermutationsEqual(a: seq<string>, b: seq<string>)
    requires Sorted(a) && Sorted(b) && multiset(a) == multiset(b)
    ensures a == b
  {
    if a != [] {
      assert |b| == |a| by {
        assert |multiset(a)| == |multiset(b)|;
      }
      assert a[0] in multiset(a) && b[0] in multiset(b);
      SortedHeadLeast(a, b[0]);
      SortedHeadLeast(b, a[0]);
      LexLeAntisymmetric(a[0], b[0]);
      SortedTail(a);
      SortedTail(b);
      SortedPermutationsEqual(a[1..], b[1..]);
      assert a == [a[0]] + a[1..] && b == [b[0]] + b[1..];
    }
  }

  /** `s` with `x` placed before the first element it does not exceed. */
  function InsertSorted(s: seq<string>, x: string): (r: seq<string>)
    requires Sorted(s)
    ensures Sorted(r)
    ensures multiset(r) == multiset(s) + multiset{x}
    ensures |r| == |s| + 1
  {
    if s == [] then
      [x]
    else if LexLe(x, s[0]) then
      assert forall j :: 0 < j < |s| + 1 ==> LexLe(x, ([x] + s)[j]) by {
        forall j | 0 < j < |s| + 1 ensures LexLe(x, ([x] + s)[j]) {
          if j > 1 {
            LexLeTransitive(x, s[0], s[j - 1]);
          }
        }
      }
      [x] + s
    else
      var rest := InsertSorted(s[1..], x);
      assert s == [s[0]] + s[1..];
      LexLeTotal(x, s[0]);
      assert forall y :: y in multiset(rest) ==> LexLe(s[0], y) by {
        forall y | y in multiset(rest) ensures LexLe(s[0], y) {
          if y != x {
            assert y in multiset(s[1..]);
            var j :| 0 <= j < |s[1..]| && s[1..][j] == y;
            assert s[j + 1] == y;
          }
        }
      }
      assert Sorted([s[0]] + rest) by {
        forall i, j | 0 <= i < j < |rest| + 1 ensures LexLe(([s[0]] + rest)[i], ([s[0]] + rest)[j]) {
          if i == 0 {
            assert rest[j - 1] in multiset(rest);
          }
        }
      }
      [s[0]] + rest
  }

  /** The names of `s`, sorted: a sorted permutation of `s`. */
  method SortNames(s: seq<string>) returns (sorted: seq<string>)
    ensures Sorted(sorted)
    ensures multiset(sorted) == multiset(s)
  {
    sorted := [];
    var i := 0;
    while i < |s|
      invariant 0 <= i <= |s|
      invariant Sorted(sorted)
      invariant multiset(sorted) == multiset(s[..i])
    {
      sorted := InsertSorted(sorted, s[i]);
      assert s[..i + 1] == s[..i] + [s[i]];
      i := i + 1;
    }
    assert s[..i] == s;
  }

  /** The keys of a name map, in some order: each key exactly once. */
  method KeysOf<T>(m: map<string, T>) returns (names: seq<string>)
    ensures multiset(names) == multiset(m.Keys)
    ensures |names| == |m|
  {
    names := [];
    var remaining := m.Keys;
    while remaining != {}
      invariant remaining <= m.Keys
      invariant multiset(names) + multiset(remaining) == multiset(m.Keys)
      decreases |remaining|
    {
      var k :| k in remaining;
      assert multiset(remaining) == multiset(remaining - {k}) + multiset{k};
      names := names + [k];
      remaining := remaining - {k};
    }
    assert |multiset(names)| == |multiset(m.Keys)|;
  }

  /** A byte of Rust's UTF-8 string storage. */
  type Byte = b: int | 0 <= b < 0x100

  /** The number of bytes UTF-8 takes for one character: 1 below U+0080, 2 below U+0800, 3 below U+10000, else 4. */
  function Utf8Width(c: char): (n: nat)
    ensures 1 <= n <= 4
    ensures n == 1 <==> c as int < 0x80
  {
    if c as int < 0x80 then 1 else if c as int < 0x800 then 2 else if c as int < 0x10000 then 3 else 4
  }

  /** The code point of a UTF-8 sequence of one to four bytes: the payload bits of the lead byte, then six bits per continuation byte. */
  function DecodeChar(bytes: seq<Byte>): int
    requires 1 <= |bytes| <= 4
  {
    if |bytes| == 1 then bytes[0]
    else if |bytes| == 2 then (bytes[0] as int - 0xC0) * 0x40 + (bytes[1] as int - 0x80)
    else if |bytes| == 3 then
      (bytes[0] as int - 0xE0) * 0x1000 + (bytes[1] as int - 0x80) * 0x40 + (bytes[2] as int - 0x80)
    else
      (bytes[0] as int - 0xF0) * 0x40000 + (bytes[1] as int - 0x80) * 0x1000
      + (bytes[2] as int - 0x80) * 0x40 + (bytes[3] as int - 0x80)
  }

  /**
   * The UTF-8 encoding of one character: a lead byte that gives the length
   * (0xxxxxxx, 110xxxxx, 1110xxxx or 11110xxx) and continuation bytes
   * 10xxxxxx, which decode back to the character.
   */
  function EncodeChar(c: char): (bytes: seq<Byte>)
    ensures |bytes| == Utf8Width(c)
    ensures |bytes| == 1 ==> bytes[0] < 0x80
    ensures |bytes| == 2 ==> 0xC0 <= bytes[0] < 0xE0
    ensures |bytes| == 3 ==> 0xE0 <= bytes[0] < 0xF0
    ensures |bytes| == 4 ==> 0xF0 <= bytes[0] < 0xF8
    ensures forall i :: 1 <= i < |bytes| ==> 0x80 <= bytes[i] < 0xC0
    ensures DecodeChar(bytes) == c as int
  {
    var n := c as int;
    if n < 0x80 then [n]
    else if n < 0x800 then EncodeTwo(n)
    else if n < 0x10000 then EncodeThree(n)
    else EncodeFour(n)
  }

  function EncodeTwo(n: int): (bytes: seq<Byte>)
    requires 0x80 <= n < 0x800
    ensures |bytes| == 2 && 0xC0 <= bytes[0] < 0xE0 && 0x80 <= bytes[1] < 0xC0
    ensures DecodeChar(bytes) == n
  {
    [0xC0 + n / 0x40, 0x80 + n % 0x40]
  }

  function EncodeThree(n: int): (bytes: seq<Byte>)
    requires 0x800 <= n < 0x10000
    ensures |bytes| == 3 && 0xE0 <= bytes[0] < 0xF0 && 0x80 <= bytes[1] < 0xC0 && 0x80 <= bytes[2] < 0xC0
    ensures DecodeChar(bytes) == n
  {
    var q := n / 0x40;
    assert n == q * 0x40 + n % 0x40;
    assert q == (q / 0x40) * 0x40 + q % 0x40;
    [0xE0 + q / 0x40, 0x80 + q % 0x40, 0x80 + n % 0x40]
  }

  function EncodeFour(n: int): (bytes: seq<Byte>)
    requires 0x10000 <= n < 0x110000
    ensures |bytes| == 4 && 0xF0 <= bytes[0] < 0xF8
    ensures 0x80 <= bytes[1] < 0xC0 && 0x80 <= bytes[2] < 0xC0 && 0x80 <= bytes[3] < 0xC0
    ensures DecodeChar(bytes) == n
  {
    var q := n / 0x40;
    var q2 := q / 0x40;
    assert n == q * 0x40 + n % 0x40;
    assert q == q2 * 0x40 + q % 0x40;
    assert q2 == (q2 / 0x40) * 0x40 + q2 % 0x40;
    [0xF0 + q2 / 0x40, 0x80 + q2 % 0x40, 0x80 + q % 0x40, 0x80 + n % 0x40]
  }

  /** The UTF-8 bytes of a string, character by character. */
  function Encode(s: string): seq<Byte> {
    if s == [] then [] else Encode(s[..|s| - 1]) + EncodeChar(s[|s| - 1])
  }

  /** `String::len`: the number of bytes of the string's UTF-8 encoding, at least one and at most four per character. */
  function Utf8Length(s: string): (n: nat)
    ensures |s| <= n <= 4 * |s|
  {
    if s == [] then 0 else Utf8Length(s[..|s| - 1]) + Utf8Width(s[|s| - 1])
  }

  /** `len` counts exactly the bytes of the encoding. */
  lemma {:induction false} Utf8LengthIsEncodedLength(s: string)
    ensures Utf8Length(s) == |Encode(s)|
  {
    if s != [] {
      Utf8LengthIsEncodedLength(s[..|s| - 1]);
    }
  }

  /** The byte length of a concatenation is the sum of the byte lengths. */
  lemma {:induction false} Utf8LengthConcat(a: string, b: string)
    ensures Utf8Length(a + b) == Utf8Length(a) + Utf8Length(b)
    decreases |b|
  {
    if b == [] {
      assert a + b == a;
    } else {
      var init := b[..|b| - 1];
      assert (a + b)[..|a + b| - 1] == a + init;
      assert (a + b)[|a + b| - 1] == b[|b| - 1];
      Utf8LengthConcat(a, init);
      assert Utf8Length(b) == Utf8Length(init) + Utf8Width(b[|b| - 1]);
    }
  }

  /** The byte length equals the character count exactly when every character is ASCII. */
  lemma {:induction false} Utf8LengthAscii(s: string)
    ensures Utf8Length(s) == |s| <==> forall i :: 0 <= i < |s| ==> s[i] as int < 0x80
  {
    if s != [] {
      var init := s[..|s| - 1];
      Utf8LengthAscii(init);
      assert forall i :: 0 <= i < |init| ==> init[i] == s[i];
    }
  }

  /** "é" is one character but two bytes. */
  lemma AccentedLetterTakesTwoBytes()
    ensures |"\U{E9}"| == 1 && Utf8Length("\U{E9}") == 2
  {
    assert "\U{E9}"[..0] == [];
  }

  /** A listing line for one name: a file's content length in bytes, or 0 and "Directory" for a name that is not a file. */
  function ItemFor(files: map<string, File>, name: string): (item: Item)
    ensures item.name == name
    ensures name in files <==> item.kind == FileItem
    ensures item.size == if name in files then |Encode(files[name].content)| else 0
  {
    if name in files then
      Utf8LengthIsEncodedLength(files[name].content);
      Item(name, FileItem, Utf8Length(files[name].content))
    else
      Item(name, DirectoryItem, 0)
  }

  /** The names column of a listing. */
  function Names(items: seq<Item>): (names: seq<string>)
    ensures |names| == |items|
    ensures forall i :: 0 <= i < |items| ==> names[i] == items[i].name
  {
    if items == [] then [] else Names(items[..|items| - 1]) + [items[|items| - 1].name]
  }

  /** One listing line per name, in the order of `names`. */
  method ItemsFor(files: map<string, File>, names: seq<string>) returns (items: seq<Item>)
    ensures Names(items) == names
    ensures forall i :: 0 <= i < |items| ==> items[i] == ItemFor(files, items[i].name)
  {
    items := [];
    var i := 0;
    while i < |names|
      invariant 0 <= i <= |names|
      invariant Names(items) == names[..i]
      invariant forall j :: 0 <= j < i ==> items[j] == ItemFor(files, names[j])
    {
      items := items + [ItemFor(files, names[i])];
      assert items[..i] == items[..|items| - 1];
      i := i + 1;
    }
    assert names[..i] == names;
  }

  /** `Directory`. */
  class Directory {
    var name: string
    var files: map<string, File>
    var subdirectories: map<string, Directory>
    var readPermission: bool
    var writePermission: bool

    /** Each subdirectory is a distinct object, owned under one name, and none is this directory. */
    ghost predicate Valid()
      reads this
    {
      && (forall k :: k in subdirectories ==> subdirectories[k] != this)
      && (forall k1, k2 :: k1 in subdirectories && k2 in subdirectories && k1 != k2 ==> subdirectories[k1] != subdirectories[k2])
    }

    /** `Directory::new`: the given name, no files, no subdirectories, read and write allowed. */
    constructor (name: string)
      ensures Valid()
      ensures this.name == name && files == map[] && subdirectories == map[]
      ensures readPermission && writePermission
    {
      this.name := name;
      files := map[];
      subdirectories := map[];
      readPermission := true;
      writePermission := true;
    }

    /** `add_file`: `files[name]` becomes the new file, replacing any earlier one; nothing else changes. */
    method AddFile(name: string, content: string, readPermission: bool, writePermission: bool)
      modifies this
      ensures files == old(files)[name := File(name, content, readPermission, writePermission)]
      ensures subdirectories == old(subdirectories)
      ensures this.name == old(this.name)
      ensures this.readPermission == old(this.readPermission) && this.writePermission == old(this.writePermission)
    {
      files := files[name := File(name, content, readPermission, writePermission)];
    }

    /**
     * `add_directory`: the subdirectory `name`, created empty when absent,
     * gets the given permissions and is returned. An existing subdirectory
     * keeps its name and contents; no other entry changes.
     */
    method AddDirectory(name: string, readPermission: bool, writePermission: bool) returns (d: Directory)
      requires Valid()
      modifies this, if name in subdirectories then {subdirectories[name]} else {}
      ensures Valid()
      ensures name in subdirectories && subdirectories[name] == d
      ensures d.readPermission == readPermission && d.writePermission == writePermission
      ensures name in old(subdirectories) ==>
                && d == old(subdirectories[name])
                && subdirectories == old(subdirectories)
                && d.name == old(d.name) && d.files == old(d.files) && d.subdirectories == old(d.subdirectories)
      ensures name !in old(subdirectories) ==>
                && fresh(d)
                && subdirectories == old(subdirectories)[name := d]
                && d.name == name && d.files == map[] && d.subdirectories == map[]
      ensures files == old(files) && this.name == old(this.name)
      ensures this.readPermission == old(this.readPermission) && this.writePermission == old(this.writePermission)
    {
      if name in subdirectories {
        d := subdirectories[name];
      } else {
        d := new Directory(name);
        subdirectories := subdirectories[name := d];
      }
      d.readPermission := readPermission;
      d.writePermission := writePermission;
    }

    /** `delete_file`: removes `name` from the files, if present; nothing else changes. */
    method DeleteFile(name: string)
      modifies this
      ensures files == old(files) - {name}
      ensures subdirectories == old(subdirectories)
      ensures this.name == old(this.name)
      ensures this.readPermission == old(this.readPermission) && this.writePermission == old(this.writePermission)
    {
      files := files - {name};
    }

    /**
     * The listing `print_directory_contents` prints: the file names and the
     * subdirectory names merged and sorted, one line each, so a name present
     * in both maps appears twice. A line reports "File" and the content length
     * when the name is a file, else "Directory" and 0.
     */
    method ListContents() returns (listing: Listing)
      ensures listing.title == name
      ensures listing.fileCount == |files| && listing.directoryCount == |subdirectories|
      ensures |listing.items| == |files| + |subdirectories|
      ensures Sorted(Names(listing.items))
      ensures multiset(Names(listing.items)) == multiset(files.Keys) + multiset(subdirectories.Keys)
      ensures forall i :: 0 <= i < |listing.items| ==> listing.items[i] == ItemFor(files, listing.items[i].name)
    {
      var fileNames := KeysOf(files);
      var directoryNames := KeysOf(subdirectories);
      var contents := SortNames(fileNames + directoryNames);
      assert |contents| == |fileNames| + |directoryNames| by {
        assert |multiset(contents)| == |multiset(fileNames + directoryNames)|;
      }
      var items := ItemsFor(files, contents);
      listing := Listing(name, |files|, |subdirectories|, items);
    }
  }
}
