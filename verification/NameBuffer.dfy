/** Writing a file name into a buffer. */
module NameBuffer {
  import opened ArgzVector
  import opened CStrings
  import opened LocaleFile
  import opened LocaleMarks
  import opened Sequences

  /** `stpcpy` into `buf` at `cp`; `end` is where the NUL went. */
  method Stpcpy(buf: array<int>, cp: nat, s: CString) returns (end: nat)
    requires cp + |s| < buf.Length
    modifies buf
    ensures end == cp + |s|
    ensures buf[..end] == old(buf[..cp]) + s && buf[end] == 0
  {
    var i := 0;
    while i < |s|
      invariant i <= |s|
      invariant buf[..cp + i] == old(buf[..cp]) + s[..i]
    {
      buf[cp + i] := s[i];
      i := i + 1;
    }
    buf[cp + i] := 0;
    end := cp + i;
  }

  method PutPart(buf: array<int>, cp: nat, present: bool, mark: int, part: CString) returns (end: nat)
    requires 1 <= mark <= 255
    requires cp + |Piece(present, mark, part)| < buf.Length
    modifies buf
    ensures end == cp + |Piece(present, mark, part)|
    ensures buf[..end] == old(buf[..cp]) + Piece(present, mark, part)
  {
    end := cp;
    if present {
      buf[cp] := mark;
      end := Stpcpy(buf, cp + 1, part);
    }
  }

  method PutLastParts(buf: array<int>, cp: nat, mask: nat, parts: Parts) returns (end: nat)
    requires cp + |LastPieces(mask, parts)| < buf.Length
    modifies buf
    ensures end == cp + |LastPieces(mask, parts)|
    ensures buf[..end] == old(buf[..cp]) + LastPieces(mask, parts)
  {
    EitherBit(mask);
    end := cp;
    if Has(mask, SPONSOR + REVISION) {
      buf[end] := COMMA;
      end := end + 1;
      if Has(mask, SPONSOR) {
        end := Stpcpy(buf, end, parts.sponsor);
      }
      end := PutPart(buf, end, Has(mask, REVISION), UNDERSCORE, parts.revision);
    }
  }

  lemma Regroup3(s: seq<int>, a: seq<int>, b: seq<int>, c: seq<int>)
    ensures s + a + b + c == s + (a + b + c)
  {
    Regroup(s, a, b);
    Regroup(s, a + b, c);
  }

  lemma Regroup4(s: seq<int>, a: seq<int>, b: seq<int>, c: seq<int>, d: seq<int>)
    ensures s + a + b + c + d == s + (a + b + c + d)
  {
    Regroup3(s, a, b, c);
    Regroup(s, a + b + c, d);
  }

  method PutFront(buf: array<int>, cp: nat, mask: nat, parts: Parts) returns (end: nat)
    requires cp + |FrontName(mask, parts)| < buf.Length
    modifies buf
    ensures end == cp + |FrontName(mask, parts)|
    ensures buf[..end] == old(buf[..cp]) + FrontName(mask, parts)
  {
    end := Stpcpy(buf, cp, parts.language);
    end := PutPart(buf, end, Has(mask, TERRITORY), UNDERSCORE, parts.territory);
    end := PutPart(buf, end, Has(mask, CODESET), DOT, parts.codeset);
    end := PutPart(buf, end, Has(mask, NORM_CODESET), DOT, parts.normalized);
    Regroup4(old(buf[..cp]), parts.language, Piece(Has(mask, TERRITORY), UNDERSCORE, parts.territory),
             Piece(Has(mask, CODESET), DOT, parts.codeset),
             Piece(Has(mask, NORM_CODESET), DOT, parts.normalized));
  }

  method PutBack(buf: array<int>, cp: nat, mask: nat, parts: Parts) returns (end: nat)
    requires cp + |BackName(mask, parts)| < buf.Length
    modifies buf
    ensures end == cp + |BackName(mask, parts)|
    ensures buf[..end] == old(buf[..cp]) + BackName(mask, parts)
  {
    end := PutPart(buf, cp, Has(mask, MODIFIER + AUDIENCE), ModifierMark(mask), parts.modifier);
    end := PutPart(buf, end, Has(mask, SPECIAL), PLUS, parts.special);
    end := PutLastParts(buf, end, mask, parts);
    Regroup3(old(buf[..cp]), Piece(Has(mask, MODIFIER + AUDIENCE), ModifierMark(mask), parts.modifier),
             Piece(Has(mask, SPECIAL), PLUS, parts.special), LastPieces(mask, parts));
  }

  /** Copies the directory list, makes it readable and ends it with a slash. */
  method PutDirectories(buf: array<int>, dirlist: seq<int>, ghost dirs: seq<CString>) returns (cp: nat)
    requires dirs != [] && dirlist == Argz(dirs) && |dirlist| <= buf.Length
    modifies buf
    ensures cp == |dirlist|
    ensures buf[..cp] == Join(dirs, COLON) + [SLASH]
  {
    JoinSize(dirs, COLON);
    cp := 0;
    while cp < |dirlist|
      invariant cp <= |dirlist|
      invariant buf[..cp] == dirlist[..cp]
    {
      buf[cp] := dirlist[cp];
      cp := cp + 1;
    }
    assert buf[..|dirlist|] == dirlist;
    Stringify(buf, |dirlist|, COLON, dirs);
    cp := |dirlist| - 1;
    assert buf[..cp] == buf[..|dirlist|][..cp] == Join(dirs, COLON);
    buf[cp] := SLASH;
    cp := cp + 1;
  }

  method PutLocale(buf: array<int>, cp: nat, mask: nat, parts: Parts) returns (end: nat)
    requires cp + |LocaleName(mask, parts)| < buf.Length
    modifies buf
    ensures end == cp + |LocaleName(mask, parts)|
    ensures buf[..end] == old(buf[..cp]) + LocaleName(mask, parts)
  {
    end := PutFront(buf, cp, mask, parts);
    end := PutBack(buf, end, mask, parts);
    Regroup(old(buf[..cp]), FrontName(mask, parts), BackName(mask, parts));
  }

  method PutName(buf: array<int>, dirlist: seq<int>, mask: nat, parts: Parts, file: CString,
      ghost dirs: seq<CString>)
    returns (end: nat)
    requires dirs != [] && dirlist == Argz(dirs)
    requires buf.Length > |FileName(dirs, mask, parts, file)|
    modifies buf
    ensures end <= buf.Length && buf[..end] == FileName(dirs, mask, parts, file)
  {
    JoinSize(dirs, COLON);
    end := PutDirectories(buf, dirlist, dirs);
    end := PutLocale(buf, end, mask, parts);
    end := PutPart(buf, end, true, SLASH, file);
    Regroup(Join(dirs, COLON) + [SLASH] + LocaleName(mask, parts), [SLASH], file);
  }

  /** Builds the file name in a buffer of exactly the size that is allocated for it. */
  method BuildName(dirlist: seq<int>, mask: nat, parts: Parts, file: CString, ghost dirs: seq<CString>)
    returns (absFilename: CString)
    requires dirs != [] && dirlist == Argz(dirs)
    ensures absFilename == FileName(dirs, mask, parts, file)
    ensures absFilename == Join(dirs, COLON) + [SLASH] + LocaleName(mask, parts) + [SLASH] + file
  {
    var buf := new int[NameSize(|dirlist|, mask, parts, file)];
    NameFits(dirs, mask, parts, file);
    var cp := PutName(buf, dirlist, mask, parts, file, dirs);
    return buf[..cp];
  }
}
