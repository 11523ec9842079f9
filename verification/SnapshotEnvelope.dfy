/** A snapshot file as a whole: header, directory, sections, and the digest of all that at the end. */
module SnapshotEnvelope {
  import opened Vocabulary
  import opened SnapshotBytes
  import opened SnapshotHeader
  import opened SectionDirectory

  /** Nothing is known about the digest but, for the writer, its length. */
  type Digester = seq<byte> -> seq<byte>

  /** Whether the loader checks the digest or leaves that to somebody else. */
  datatype Integrity = Checksum | External

  datatype Envelope = Envelope(header: Header, sections: map<nat, Section>)

  // ---------------------------------------------------------------- reading

  /** The footer is the end of the file, and the digest of what comes before it. */
  predicate FooterHolds(bytes: seq<byte>, footer: seq<byte>, integrity: Integrity, digest: Digester) {
    && |footer| == DIGEST_LEN <= |bytes| && bytes[|bytes| - DIGEST_LEN..] == footer
    && (integrity.Checksum? ==> digest(bytes[..|bytes| - DIGEST_LEN]) == footer)
  }

  ghost predicate IsFooter(bytes: seq<byte>, entry: DirectoryEntry, integrity: Integrity, digest: Digester) {
    && entry.kind == FOOTER && entry.offset + entry.len <= |bytes|
    && FooterHolds(bytes, SectionOf(bytes, entry).bytes, integrity, digest)
  }

  /** A file with this header that is taken for a snapshot. */
  ghost predicate Acceptable(bytes: seq<byte>, h: Header, integrity: Integrity, digest: Digester) {
    && HeaderOf(bytes, h) && |bytes| >= DIRECTORY_END
    && DirectoryAcceptable(h.version, DirectoryOf(bytes), DIRECTORY_END, |bytes|)
    && exists entry :: entry in DirectoryOf(bytes) && IsFooter(bytes, entry, integrity, digest)
  }

  /** The sections are the parts of the file its directory names. */
  ghost predicate SectionsOf(bytes: seq<byte>, sections: map<nat, Section>)
    requires |bytes| >= DIRECTORY_END
  {
    forall entry :: entry in DirectoryOf(bytes) ==>
      entry.offset + entry.len <= |bytes| && entry.kind in sections && sections[entry.kind] == SectionOf(bytes, entry)
  }

  lemma FooterEntry(version: FormatVersion, bytes: seq<byte>) returns (footer: DirectoryEntry)
    requires |bytes| >= DIRECTORY_END && DirectoryAcceptable(version, DirectoryOf(bytes), DIRECTORY_END, |bytes|)
    ensures footer in DirectoryOf(bytes) && footer.kind == FOOTER
    ensures forall entry :: entry in DirectoryOf(bytes) && entry.kind == FOOTER ==> entry == footer
  {
    hide EntriesFrom, NonOverlapping, SortByOffset;
    assert HasKind(DirectoryOf(bytes), FOOTER);
    var i :| 0 <= i < |DirectoryOf(bytes)| && DirectoryOf(bytes)[i].kind == FOOTER;
    footer := DirectoryOf(bytes)[i];
  }

  /** Parses the envelope: it succeeds exactly on acceptable files. */
  method Parse(bytes: seq<byte>, integrity: Integrity, digest: Digester) returns (r: Result<Envelope, FormatError>)
    ensures r.Ok? <==> exists h :: Acceptable(bytes, h, integrity, digest)
    ensures r.Ok? ==> Acceptable(bytes, r.value.header, integrity, digest) && SectionsOf(bytes, r.value.sections)
  {
    hide HeaderOf, DirectoryAcceptable, EntriesFrom, FooterHolds;
    var header := ParseHeader(bytes);
    if header.Err? {
      return Err(header.error);
    }
    var sections := ReadSections(header.value.version, bytes);
    if sections.Err? {
      return Err(sections.error);
    }
    ghost var footer := FooterEntry(header.value.version, bytes);
    assert sections.value[FOOTER] == SectionOf(bytes, footer);
    if !FooterHolds(bytes, sections.value[FOOTER].bytes, integrity, digest) {
      assert !IsFooter(bytes, footer, integrity, digest);
      return Err(FooterInvalid);
    }
    assert IsFooter(bytes, footer, integrity, digest) && Acceptable(bytes, header.value, integrity, digest);
    r := Ok(Envelope(header.value, sections.value));
  }

  // ---------------------------------------------------------------- writing

  lemma {:induction false} PayloadsAppend(sections: seq<SectionPayload>, last: SectionPayload)
    ensures Payloads(sections + [last]) == Payloads(sections) + last.bytes
  {
    if sections == [] {
      assert sections + [last] == [last];
      assert Payloads([last]) == last.bytes + Payloads([]);
    } else {
      assert (sections + [last])[1..] == sections[1..] + [last];
      PayloadsAppend(sections[1..], last);
    }
  }

  /** The directory does not depend on what the last section holds, only on how long it is. */
  lemma {:induction false} SameDirectory(sections: seq<SectionPayload>, left: SectionPayload, right: SectionPayload, offset: nat)
    requires left == right.(bytes := left.bytes) && |left.bytes| == |right.bytes|
    ensures Directory(sections + [left], offset) == Directory(sections + [right], offset)
    decreases |sections|
  {
    if sections == [] {
      assert sections + [left] == [left] && sections + [right] == [right];
      assert [left][1..] == [] == [right][1..];
    } else {
      assert (sections + [left])[1..] == sections[1..] + [left] && (sections + [right])[1..] == sections[1..] + [right];
      SameDirectory(sections[1..], left, right, offset + |sections[0].bytes|);
    }
  }

  function Footer(bytes: seq<byte>): SectionPayload { SectionPayload(FOOTER, 0, bytes, 1) }

  /** Length of the file the sections make, its footer included. */
  function FileLen(sections: seq<SectionPayload>): nat { DIRECTORY_END + |Payloads(sections)| + DIGEST_LEN }

  /** The sections before the footer, ready to be written. */
  ghost predicate Ready(sections: seq<SectionPayload>) {
    && |sections| == FOOTER - 1 && FileLen(sections) < U64_LIMIT
    && (forall i :: 0 <= i < |sections| ==>
          && sections[i].kind == i + 1 && FlagsSupported(V3, i + 1, sections[i].flags)
          && sections[i].flags < 0x1_0000 && sections[i].rowCount < U64_LIMIT)
  }

  lemma ReadyIsWritable(sections: seq<SectionPayload>, footer: seq<byte>)
    requires Ready(sections) && |footer| == DIGEST_LEN
    ensures Writable(sections + [Footer(footer)]) && |Payloads(sections + [Footer(footer)])| == |Payloads(sections)| + DIGEST_LEN
  {
    hide Pow256, Payloads;
    Powers();
    PayloadsAppend(sections, Footer(footer));
  }

  ghost predicate Digests(digest: Digester) { forall bytes :: |digest(bytes)| == DIGEST_LEN }

  /** A written file is acceptable under its header, and its directory names every section. */
  ghost predicate Holds(bytes: seq<byte>, h: Header, sections: seq<SectionPayload>, digest: Digester) {
    && Acceptable(bytes, h, Checksum, digest) && Acceptable(bytes, h, External, digest)
    && forall i :: 0 <= i < |sections| ==> exists entry :: entry in DirectoryOf(bytes) && Located(entry, sections[i], bytes)
  }

  lemma HeaderLength(h: Header, fileLen: nat)
    requires HeaderFits(h, fileLen)
    ensures |HeaderBytes(h, fileLen)| == HEADER_LEN
  {
    hide EncodeLE;
    EncodedLength(h.version.Raw(), 2);
    EncodedLength(h.profile.FlagBits(), 2);
    EncodedLength(HEADER_LEN, 4);
    EncodedLength(REQUIRED_SECTION_COUNT, 4);
    EncodedLength(fileLen, 8);
    EncodedLength(h.relationshipCount, 4);
    EncodedLength(h.symbolCount, 4);
    EncodedLength(h.revision, 8);
  }

  lemma FileIsHeld(h: Header, sections: seq<SectionPayload>, body: seq<byte>, digest: Digester)
    requires Ready(sections) && HeaderFits(h, FileLen(sections)) && h.version.V3? && Digests(digest)
    requires body + digest(body) == FileBytes(HeaderBytes(h, FileLen(sections)), sections + [Footer(digest(body))])
    ensures Holds(body + digest(body), h, sections, digest)
  {
    hide HeaderBytes, DirectoryBytes, EntriesFrom, Directory, Payloads, DirectoryAcceptable, Located, Ready;
    var bytes, all := body + digest(body), sections + [Footer(digest(body))];
    var header := HeaderBytes(h, FileLen(sections));
    HeaderLength(h, FileLen(sections));
    ReadyIsWritable(sections, digest(body));
    assert |all| == REQUIRED_SECTION_COUNT by { ReadyCount(sections); }
    FileParts(header, all, bytes);
    FileStarts(header, DirectoryBytes(Directory(all, DIRECTORY_END)), Payloads(all));
    assert bytes[..HEADER_LEN] == header;
    FileLength(header, all, bytes);
    assert HeaderOf(bytes, h);
    var written := Directory(all, DIRECTORY_END);
    assert written == DirectoryOf(bytes);
    var footer := written[FOOTER - 1];
    assert Located(footer, all[FOOTER - 1], bytes);
    FooterIsHeld(bytes, body, footer, digest);
    forall i | 0 <= i < |sections| ensures exists entry :: entry in DirectoryOf(bytes) && Located(entry, sections[i], bytes) {
      assert Located(written[i], all[i], bytes) && written[i] in DirectoryOf(bytes);
    }
  }

  lemma ReadyCount(sections: seq<SectionPayload>)
    requires Ready(sections)
    ensures |sections| == FOOTER - 1
  {
  }

  lemma FileStarts(first: seq<byte>, second: seq<byte>, third: seq<byte>)
    ensures (first + second + third)[..|first|] == first
  {
  }

  lemma FileLength(header: seq<byte>, sections: seq<SectionPayload>, bytes: seq<byte>)
    requires |header| == HEADER_LEN && Writable(sections) && bytes == FileBytes(header, sections)
    ensures |bytes| == DIRECTORY_END + |Payloads(sections)|
  {
    hide DirectoryBytes, Directory, Payloads, EntryFits, Writable;
    WrittenEntriesFit(sections, DIRECTORY_END);
    DirectoryReadsBack(Directory(sections, DIRECTORY_END));
    WritableCount(sections);
  }

  lemma WritableCount(sections: seq<SectionPayload>)
    requires Writable(sections)
    ensures |sections| == REQUIRED_SECTION_COUNT
  {
  }

  lemma FooterIsHeld(bytes: seq<byte>, body: seq<byte>, footer: DirectoryEntry, digest: Digester)
    requires bytes == body + digest(body) && |digest(body)| == DIGEST_LEN && Located(footer, Footer(digest(body)), bytes)
    ensures IsFooter(bytes, footer, Checksum, digest) && IsFooter(bytes, footer, External, digest)
  {
    assert bytes[..|bytes| - DIGEST_LEN] == body && bytes[|bytes| - DIGEST_LEN..] == digest(body);
  }

  /** Writes a file: with room for the footer first, then with the digest in its place. */
  method Write(h: Header, sections: seq<SectionPayload>, digest: Digester) returns (bytes: seq<byte>)
    requires Ready(sections) && HeaderFits(h, FileLen(sections)) && h.version.V3? && Digests(digest)
    ensures Holds(bytes, h, sections, digest)
  {
    hide HeaderBytes, DirectoryBytes, Directory, Payloads, Ready, Holds;
    var header := HeaderBytes(h, FileLen(sections));
    var blank := Footer(seq(DIGEST_LEN, _ => 0));
    var draft := EncodeFile(header, sections + [blank]);
    PayloadsAppend(sections, blank);
    var footerStart := |draft| - DIGEST_LEN;
    ghost var head := header + DirectoryBytes(Directory(sections + [blank], DIRECTORY_END));
    ReadyCount(sections);
    assert draft == head + (Payloads(sections) + blank.bytes) == head + Payloads(sections) + blank.bytes;
    var body := draft[..footerStart];
    assert body == head + Payloads(sections);
    ghost var footer := Footer(digest(body));
    SameDirectory(sections, blank, footer, DIRECTORY_END);
    PayloadsAppend(sections, footer);
    assert body + footer.bytes == head + (Payloads(sections) + footer.bytes);
    FileIsHeld(h, sections, body, digest);
    bytes := body + digest(body);
  }

  /** A written file parses, with its digest checked or not: its header and all its sections come back. */
  method WriteThenParse(h: Header, sections: seq<SectionPayload>, integrity: Integrity, digest: Digester) returns (r: Result<Envelope, FormatError>)
    requires Ready(sections) && HeaderFits(h, FileLen(sections)) && h.version.V3? && Digests(digest)
    ensures r.Ok? && r.value.header == h && forall i :: 0 <= i < |sections| ==> ComesBack(r.value.sections, sections[i])
  {
    hide Ready, HeaderFits, Payloads;
    var bytes := Write(h, sections, digest);
    assert Acceptable(bytes, h, integrity, digest);
    r := Parse(bytes, integrity, digest);
    WrittenComesBack(bytes, h, r.value, sections, integrity, digest);
  }

  lemma WrittenComesBack(bytes: seq<byte>, h: Header, parsed: Envelope, sections: seq<SectionPayload>, integrity: Integrity, digest: Digester)
    requires Holds(bytes, h, sections, digest)
    requires Acceptable(bytes, parsed.header, integrity, digest) && SectionsOf(bytes, parsed.sections)
    ensures parsed.header == h && forall i :: 0 <= i < |sections| ==> ComesBack(parsed.sections, sections[i])
  {
    hide EntriesFrom, DirectoryAcceptable, IsFooter, HeaderOf;
    HeaderIsUnique(bytes, h, parsed.header);
    forall i | 0 <= i < |sections| ensures ComesBack(parsed.sections, sections[i]) {
      var entry :| entry in DirectoryOf(bytes) && Located(entry, sections[i], bytes);
    }
  }
}
