/** The master list of file types (`sceadan_types`) and the lookup of a
    type's name by its numeric code (`sceadan_name_for_type`). */
module Registry {

  import opened Wrappers

  /** Every type the table lists, in table order. */
  datatype FileType =
    A85 | Aes | Aspx | Avi | B16 | B64 | BcvConst | Bmp | Bz2 | Css | Csv
    | Dll | Doc | Docx | Elf | Exe | Ext3 | Fat | Flv | Gif | Gz | Html
    | Jar | Java | Jb2 | Jpg | Js | Json | Log | M4a | Mov | Mp3 | Mp4
    | Ntfs | Pdf | Png | Pps | Ppt | Pptx | Ps | Pst | Rand | Rpm | Rtf
    | Swf | Tbird | TcvConst | Text | Tif | UcvConst | Url | Wav | Wma
    | Wmv | Xls | Xlsx | Xml | Zip

  /** The name the table gives each type. */
  function Name(t: FileType): string
  {
    match t
      case A85 => "a85"
      case Aes => "aes"
      case Aspx => "aspx"
      case Avi => "avi"
      case B16 => "b16"
      case B64 => "b64"
      case BcvConst => "bcv_const"
      case Bmp => "bmp"
      case Bz2 => "bz2"
      case Css => "css"
      case Csv => "csv"
      case Dll => "dll"
      case Doc => "doc"
      case Docx => "docx"
      case Elf => "elf"
      case Exe => "exe"
      case Ext3 => "ext3"
      case Fat => "fat"
      case Flv => "flv"
      case Gif => "gif"
      case Gz => "gz"
      case Html => "html"
      case Jar => "jar"
      case Java => "java"
      case Jb2 => "jb2"
      case Jpg => "jpg"
      case Js => "js"
      case Json => "json"
      case Log => "log"
      case M4a => "m4a"
      case Mov => "mov"
      case Mp3 => "mp3"
      case Mp4 => "mp4"
      case Ntfs => "ntfs"
      case Pdf => "pdf"
      case Png => "png"
      case Pps => "pps"
      case Ppt => "ppt"
      case Pptx => "pptx"
      case Ps => "ps"
      case Pst => "pst"
      case Rand => "rand"
      case Rpm => "rpm"
      case Rtf => "rtf"
      case Swf => "swf"
      case Tbird => "tbird"
      case TcvConst => "tcv_const"
      case Text => "txt"
      case Tif => "tif"
      case UcvConst => "ucv_const"
      case Url => "url"
      case Wav => "wav"
      case Wma => "wma"
      case Wmv => "wmv"
      case Xls => "xls"
      case Xlsx => "xlsx"
      case Xml => "xml"
      case Zip => "zip"
  }

  /** Number of typed rows in the table. */
  const TypeCount := 58

  /** The type of typed row k, in table order. The comparisons are nested as
      a balanced tree so that the verifier splits a symbolic k into few cases. */
  function TypeAt(k: nat): FileType
    requires k < TypeCount
  {
    if k < 29 then
      if k < 14 then
        if k < 7 then
          if k < 3 then
            if k < 1 then
              A85
            else
              if k < 2 then
                Aes
              else
                Aspx
          else
            if k < 5 then
              if k < 4 then
                Avi
              else
                B16
            else
              if k < 6 then
                B64
              else
                BcvConst
        else
          if k < 10 then
            if k < 8 then
              Bmp
            else
              if k < 9 then
                Bz2
              else
                Css
          else
            if k < 12 then
              if k < 11 then
                Csv
              else
                Dll
            else
              if k < 13 then
                Doc
              else
                Docx
      else
        if k < 21 then
          if k < 17 then
            if k < 15 then
              Elf
            else
              if k < 16 then
                Exe
              else
                Ext3
          else
            if k < 19 then
              if k < 18 then
                Fat
              else
                Flv
            else
              if k < 20 then
                Gif
              else
                Gz
        else
          if k < 25 then
            if k < 23 then
              if k < 22 then
                Html
              else
                Jar
            else
              if k < 24 then
                Java
              else
                Jb2
          else
            if k < 27 then
              if k < 26 then
                Jpg
              else
                Js
            else
              if k < 28 then
                Json
              else
                Log
    else
      if k < 43 then
        if k < 36 then
          if k < 32 then
            if k < 30 then
              M4a
            else
              if k < 31 then
                Mov
              else
                Mp3
          else
            if k < 34 then
              if k < 33 then
                Mp4
              else
                Ntfs
            else
              if k < 35 then
                Pdf
              else
                Png
        else
          if k < 39 then
            if k < 37 then
              Pps
            else
              if k < 38 then
                Ppt
              else
                Pptx
          else
            if k < 41 then
              if k < 40 then
                Ps
              else
                Pst
            else
              if k < 42 then
                Rand
              else
                Rpm
      else
        if k < 50 then
          if k < 46 then
            if k < 44 then
              Rtf
            else
              if k < 45 then
                Swf
              else
                Tbird
          else
            if k < 48 then
              if k < 47 then
                TcvConst
              else
                Text
            else
              if k < 49 then
                Tif
              else
                UcvConst
        else
          if k < 54 then
            if k < 52 then
              if k < 51 then
                Url
              else
                Wav
            else
              if k < 53 then
                Wma
              else
                Wmv
          else
            if k < 56 then
              if k < 55 then
                Xls
              else
                Xlsx
            else
              if k < 57 then
                Xml
              else
                Zip
  }

  /** The row of each type: every type is listed. */
  function Position(t: FileType): (k: nat)
    ensures k < TypeCount && TypeAt(k) == t
  {
    match t
      case A85 => 0
      case Aes => 1
      case Aspx => 2
      case Avi => 3
      case B16 => 4
      case B64 => 5
      case BcvConst => 6
      case Bmp => 7
      case Bz2 => 8
      case Css => 9
      case Csv => 10
      case Dll => 11
      case Doc => 12
      case Docx => 13
      case Elf => 14
      case Exe => 15
      case Ext3 => 16
      case Fat => 17
      case Flv => 18
      case Gif => 19
      case Gz => 20
      case Html => 21
      case Jar => 22
      case Java => 23
      case Jb2 => 24
      case Jpg => 25
      case Js => 26
      case Json => 27
      case Log => 28
      case M4a => 29
      case Mov => 30
      case Mp3 => 31
      case Mp4 => 32
      case Ntfs => 33
      case Pdf => 34
      case Png => 35
      case Pps => 36
      case Ppt => 37
      case Pptx => 38
      case Ps => 39
      case Pst => 40
      case Rand => 41
      case Rpm => 42
      case Rtf => 43
      case Swf => 44
      case Tbird => 45
      case TcvConst => 46
      case Text => 47
      case Tif => 48
      case UcvConst => 49
      case Url => 50
      case Wav => 51
      case Wma => 52
      case Wmv => 53
      case Xls => 54
      case Xlsx => 55
      case Xml => 56
      case Zip => 57
  }

  /** One row of the table. A name of None is C's null pointer; every row
      of the table as written has a non-null name. */
  datatype Entry = Entry(code: int, name: Option<string>)

  /** The typed rows, with the numeric codes the enumeration assigns. */
  function TypedEntries(code: FileType -> int): (e: seq<Entry>)
    ensures |e| == TypeCount
  {
    seq(TypeCount, k requires 0 <= k < TypeCount => Entry(code(TypeAt(k)), Some(Name(TypeAt(k)))))
  }

  /** The table as written: the row for code 0, the typed rows, and a last
      row whose name is the empty string, which is not a null pointer. */
  function AsWrittenTable(code: FileType -> int): seq<Entry>
  {
    [Entry(0, Some("unclassified"))] + TypedEntries(code) + [Entry(0, Some(""))]
  }

  /** The table with the terminating row the lookup loop tests for: a null
      name. */
  function Table(code: FileType -> int): seq<Entry>
  {
    [Entry(0, Some("unclassified"))] + TypedEntries(code) + [Entry(0, None)]
  }

  /** What the lookup loop does: return a name, return null at a row with a
      null name, or walk off the end of the table. */
  datatype Lookup = Found(name: string) | NotFound | Overrun

  /** The loop steps past rows i .. k-1: each has a name and another code. */
  ghost predicate Passes(table: seq<Entry>, c: int, i: nat, k: nat)
  {
    forall j :: i <= j < k && j < |table| ==> table[j].name.Some? && table[j].code != c
  }

  /** The lookup loop from row i on, as a function. */
  function Scan(table: seq<Entry>, c: int, i: nat): Lookup
    requires i <= |table|
    decreases |table| - i
  {
    if i == |table| then Overrun
    else if table[i].name.None? then NotFound
    else if table[i].code == c then Found(table[i].name.value)
    else Scan(table, c, i + 1)
  }

  /** The scan returns the first row from i on that has a null name or the
      code, and walks off the end exactly when there is no such row. */
  lemma {:induction false} ScanCases(table: seq<Entry>, c: int, i: nat)
    requires i <= |table|
    decreases |table| - i
    ensures Scan(table, c, i) == Overrun <==> Passes(table, c, i, |table|)
    ensures Scan(table, c, i).Found? ==> exists k ::
      i <= k < |table| && Passes(table, c, i, k) && table[k].code == c && table[k].name == Some(Scan(table, c, i).name)
    ensures Scan(table, c, i) == NotFound ==> exists k ::
      i <= k < |table| && Passes(table, c, i, k) && table[k].name.None?
    ensures forall k :: i <= k < |table| && Passes(table, c, i, k) && table[k].name.Some? && table[k].code == c ==>
      Scan(table, c, i) == Found(table[k].name.value)
    ensures forall k :: i <= k < |table| && Passes(table, c, i, k) && table[k].name.None? ==>
      Scan(table, c, i) == NotFound
  {
    if i == |table| {
    } else if table[i].name.None? {
      assert Passes(table, c, i, i);
    } else if table[i].code == c {
      assert Passes(table, c, i, i);
    } else {
      ScanCases(table, c, i + 1);
      assert forall k :: i < k <= |table| ==> (Passes(table, c, i, k) <==> Passes(table, c, i + 1, k));
    }
  }

  /** `sceadan_name_for_type`: scan the rows until one has a null name,
      returning the name of the first row with the code. */
  method NameForType(table: seq<Entry>, c: int) returns (r: Lookup)
    ensures r == Scan(table, c, 0)
  {
    var i := 0;
    while i < |table| && table[i].name.Some?
      invariant 0 <= i <= |table|
      invariant Scan(table, c, i) == Scan(table, c, 0)
    {
      if table[i].code == c {
        return Found(table[i].name.value);
      }
      i := i + 1;
    }
    if i == |table| {
      return Overrun;
    }
    return NotFound;
  }

  // =====================================================================
  // Properties of the lookup

  /** The type a name belongs to, if any: the inverse of Name, dispatched
      character by character. */
  function TypeNamed(s: string): Option<FileType>
  {
    if |s| == 0 then None
    else if s[0] == 'a' then
      if s == "a85" then Some(A85) else if s == "aes" then Some(Aes)
        else if s == "aspx" then Some(Aspx) else if s == "avi" then Some(Avi) else None
    else if s[0] == 'b' then
      if s == "b16" then Some(B16) else if s == "b64" then Some(B64)
        else if s == "bcv_const" then Some(BcvConst) else if s == "bmp" then Some(Bmp)
        else if s == "bz2" then Some(Bz2) else None
    else if s[0] == 'c' then
      if s == "css" then Some(Css) else if s == "csv" then Some(Csv) else None
    else if s[0] == 'd' then
      if s == "dll" then Some(Dll) else if s == "doc" then Some(Doc)
        else if s == "docx" then Some(Docx) else None
    else if s[0] == 'e' then
      if s == "elf" then Some(Elf) else if s == "exe" then Some(Exe)
        else if s == "ext3" then Some(Ext3) else None
    else if s[0] == 'f' then
      if s == "fat" then Some(Fat) else if s == "flv" then Some(Flv) else None
    else if s[0] == 'g' then
      if s == "gif" then Some(Gif) else if s == "gz" then Some(Gz) else None
    else if s[0] == 'h' then
      if s == "html" then Some(Html) else None
    else if s[0] == 'j' then
      if s == "jar" then Some(Jar) else if s == "java" then Some(Java)
        else if s == "jb2" then Some(Jb2) else if s == "jpg" then Some(Jpg)
        else if s == "js" then Some(Js) else if s == "json" then Some(Json) else None
    else if s[0] == 'l' then
      if s == "log" then Some(Log) else None
    else if s[0] == 'm' then
      if s == "m4a" then Some(M4a) else if s == "mov" then Some(Mov)
        else if s == "mp3" then Some(Mp3) else if s == "mp4" then Some(Mp4) else None
    else if s[0] == 'n' then
      if s == "ntfs" then Some(Ntfs) else None
    else if s[0] == 'p' then
      if s == "pdf" then Some(Pdf) else if s == "png" then Some(Png)
        else if s == "pps" then Some(Pps) else if s == "ppt" then Some(Ppt)
        else if s == "pptx" then Some(Pptx) else if s == "ps" then Some(Ps)
        else if s == "pst" then Some(Pst) else None
    else if s[0] == 'r' then
      if s == "rand" then Some(Rand) else if s == "rpm" then Some(Rpm)
        else if s == "rtf" then Some(Rtf) else None
    else if s[0] == 's' then
      if s == "swf" then Some(Swf) else None
    else if s[0] == 't' then
      if s == "tbird" then Some(Tbird) else if s == "tcv_const" then Some(TcvConst)
        else if s == "txt" then Some(Text) else if s == "tif" then Some(Tif) else None
    else if s[0] == 'u' then
      if s == "ucv_const" then Some(UcvConst) else if s == "url" then Some(Url) else None
    else if s[0] == 'w' then
      if s == "wav" then Some(Wav) else if s == "wma" then Some(Wma)
        else if s == "wmv" then Some(Wmv) else None
    else if s[0] == 'x' then
      if s == "xls" then Some(Xls) else if s == "xlsx" then Some(Xlsx)
        else if s == "xml" then Some(Xml) else None
    else if s[0] == 'z' then
      if s == "zip" then Some(Zip) else None
    else None
  }

  /** Name has an inverse, so no two types share a name. The rows are
      taken a few at a time to keep each proof small. */
  lemma NamesIdentify(t: FileType)
    ensures TypeNamed(Name(t)) == Some(t)
  {
    if Position(t) < 10 {
      NamesIdentifyBelow10(t);
    } else if Position(t) < 20 {
      NamesIdentifyBelow20(t);
    } else if Position(t) < 29 {
      NamesIdentifyBelow29(t);
    } else if Position(t) < 39 {
      NamesIdentifyBelow39(t);
    } else if Position(t) < 48 {
      NamesIdentifyBelow48(t);
    } else {
      NamesIdentifyBelow58(t);
    }
  }

  lemma NamesIdentifyBelow10(t: FileType)
    requires Position(t) < 10
    ensures TypeNamed(Name(t)) == Some(t)
  {
  }

  lemma NamesIdentifyBelow20(t: FileType)
    requires 10 <= Position(t) < 20
    ensures TypeNamed(Name(t)) == Some(t)
  {
  }

  lemma NamesIdentifyBelow29(t: FileType)
    requires 20 <= Position(t) < 29
    ensures TypeNamed(Name(t)) == Some(t)
  {
  }

  lemma NamesIdentifyBelow39(t: FileType)
    requires 29 <= Position(t) < 39
    ensures TypeNamed(Name(t)) == Some(t)
  {
  }

  lemma NamesIdentifyBelow48(t: FileType)
    requires 39 <= Position(t) < 48
    ensures TypeNamed(Name(t)) == Some(t)
  {
  }

  lemma NamesIdentifyBelow58(t: FileType)
    requires 48 <= Position(t)
    ensures TypeNamed(Name(t)) == Some(t)
  {
  }

  /** The typed rows carry pairwise distinct names, none of which is the
      empty name of the terminating row or the "unclassified" name of code 0. */
  lemma TypedNamesDistinct(code: FileType -> int)
    ensures forall j, k :: 0 <= j < k < TypeCount ==>
      TypedEntries(code)[j].name != TypedEntries(code)[k].name
    ensures forall k :: 0 <= k < TypeCount ==>
      TypedEntries(code)[k].name !in {Some(""), Some("unclassified")}
  {
    assert TypeNamed("") == None && TypeNamed("unclassified") == None;
    forall j, k | 0 <= j < k < TypeCount
      ensures TypedEntries(code)[j].name != TypedEntries(code)[k].name
    {
      PositionOfTypeAt(j);
      PositionOfTypeAt(k);
      NamesIdentify(TypeAt(j));
      NamesIdentify(TypeAt(k));
    }
    forall k | 0 <= k < TypeCount
      ensures TypedEntries(code)[k].name !in {Some(""), Some("unclassified")}
    {
      NamesIdentify(TypeAt(k));
    }
  }

  /** The rows list each type once. */
  lemma PositionOfTypeAt(k: nat)
    requires k < TypeCount
    ensures Position(TypeAt(k)) == k
  {
  }

  ghost predicate Injective(code: FileType -> int)
  {
    forall a, b :: code(a) == code(b) ==> a == b
  }

  /** Code 0 names the unclassified row, whatever the enumeration. */
  lemma ZeroIsUnclassified(code: FileType -> int)
    ensures Scan(Table(code), 0, 0) == Found("unclassified")
    ensures Scan(AsWrittenTable(code), 0, 0) == Found("unclassified")
  {
    assert Passes(Table(code), 0, 0, 0);
    assert Passes(AsWrittenTable(code), 0, 0, 0);
  }

  /** The rows of either table, one by one. */
  lemma Rows(code: FileType -> int)
    ensures |Table(code)| == |AsWrittenTable(code)| == TypeCount + 2
    ensures Table(code)[0] == AsWrittenTable(code)[0] == Entry(0, Some("unclassified"))
    ensures forall k :: 0 <= k < TypeCount ==>
      Table(code)[k + 1] == AsWrittenTable(code)[k + 1] == Entry(code(TypeAt(k)), Some(Name(TypeAt(k))))
    ensures Table(code)[TypeCount + 1] == Entry(0, None)
    ensures AsWrittenTable(code)[TypeCount + 1] == Entry(0, Some(""))
  {
  }

  /** With distinct nonzero codes, the lookup of a type's code gives the
      type's name, in either table. */
  lemma NameRoundTrip(code: FileType -> int, t: FileType)
    requires Injective(code) && code(t) != 0
    ensures Scan(Table(code), code(t), 0) == Found(Name(t))
    ensures Scan(AsWrittenTable(code), code(t), 0) == Found(Name(t))
  {
    RoundTripAt(code, Position(t));
  }

  lemma RoundTripAt(code: FileType -> int, k: nat)
    requires k < TypeCount && Injective(code) && code(TypeAt(k)) != 0
    ensures Scan(Table(code), code(TypeAt(k)), 0) == Found(Name(TypeAt(k)))
    ensures Scan(AsWrittenTable(code), code(TypeAt(k)), 0) == Found(Name(TypeAt(k)))
  {
    Rows(code);
    EarlierCodesDiffer(code, k);
    RoundTripIn(Table(code), code, k);
    RoundTripIn(AsWrittenTable(code), code, k);
  }

  lemma EarlierCodesDiffer(code: FileType -> int, k: nat)
    requires k < TypeCount && Injective(code)
    ensures forall j :: 0 <= j < k ==> code(TypeAt(j)) != code(TypeAt(k))
  {
    forall j | 0 <= j < k
      ensures code(TypeAt(j)) != code(TypeAt(k))
    {
      PositionOfTypeAt(j);
      PositionOfTypeAt(k);
    }
  }

  /** In a table whose rows after the first are the typed rows, the code of
      the k-th type, nonzero and carried by no earlier type, finds its name. */
  lemma RoundTripIn(table: seq<Entry>, code: FileType -> int, k: nat)
    requires k < TypeCount && |table| == TypeCount + 2 && code(TypeAt(k)) != 0
    requires table[0].name.Some? && table[0].code == 0
    requires forall j :: 0 <= j < TypeCount ==> table[j + 1] == Entry(code(TypeAt(j)), Some(Name(TypeAt(j))))
    requires forall j :: 0 <= j < k ==> code(TypeAt(j)) != code(TypeAt(k))
    ensures Scan(table, code(TypeAt(k)), 0) == Found(Name(TypeAt(k)))
  {
    ScanCases(table, code(TypeAt(k)), 0);
    assert Passes(table, code(TypeAt(k)), 0, k + 1) by {
      forall j | 0 <= j < k + 1
        ensures table[j].name.Some? && table[j].code != code(TypeAt(k))
      {
        if j > 0 {
          assert table[(j - 1) + 1] == Entry(code(TypeAt(j - 1)), Some(Name(TypeAt(j - 1))));
        }
      }
    }
  }

  /** A found name belongs to the code looked up. */
  lemma FoundIsListed(code: FileType -> int, c: int)
    ensures Scan(Table(code), c, 0).Found? ==>
      (c == 0 && Scan(Table(code), c, 0).name == "unclassified")
      || exists t :: code(t) == c && Scan(Table(code), c, 0).name == Name(t)
  {
    Rows(code);
    var table := Table(code);
    var r := Scan(table, c, 0);
    ScanCases(table, c, 0);
    if r.Found? {
      var k :| 0 <= k < |table| && Passes(table, c, 0, k) && table[k].code == c && table[k].name == Some(r.name);
      if k > 0 {
        assert table[(k - 1) + 1].code == code(TypeAt(k - 1));
      }
    }
  }

  /** The corrected table: a code no row carries is not found, and the scan
      never leaves the table. */
  lemma UnknownCodeNotFound(code: FileType -> int, c: int)
    requires c != 0 && forall t :: code(t) != c
    ensures Scan(Table(code), c, 0) == NotFound
  {
    Rows(code);
    var table := Table(code);
    ScanCases(table, c, 0);
    assert Passes(table, c, 0, |table| - 1);
  }

  /** The corrected table never lets the scan walk off its end. */
  lemma TableNeverOverruns(code: FileType -> int, c: int)
    ensures Scan(Table(code), c, 0) != Overrun
  {
    var table := Table(code);
    ScanCases(table, c, 0);
    assert !Passes(table, c, 0, |table|) by {
      assert table[|table| - 1].name.None?;
    }
  }

  /** The table as written: the last row's name is not null, so a code no
      row carries takes the scan past the last row. */
  lemma AsWrittenUnknownCodeOverruns(code: FileType -> int, c: int)
    requires c != 0 && forall t :: code(t) != c
    ensures Scan(AsWrittenTable(code), c, 0) == Overrun
  {
    Rows(code);
    var table := AsWrittenTable(code);
    ScanCases(table, c, 0);
    assert Passes(table, c, 0, |table|);
  }
}
