/** The printed form of mergeinfo with every literal byte written out (mergeinfo/mergeinfo.go). */
module MergeinfoForm {
  import opened Common
  import opened Decimal
  import opened Strings
  import opened Rangelists
  import opened Mergeinfo
  import opened MergeinfoLaws
  import opened RangelistText
  import opened MergeinfoText

  lemma {:induction false} OnePart(item: Range)
    requires 0 <= item.start < item.end
    ensures RangeText(item).Some? && Parts([item]) == [RangeText(item).value] && Printed([item]) == RangeText(item).value
  {
    assert KeepSome(Texts([item]), 0) == [];
    assert KeepSome(Texts([item]), 1) == [RangeText(item).value];
  }

  /** One range: its only revision, or the first and the last with a dash between them; a star if it
      is not inheritable. */
  lemma {:induction false} RangeForm(item: Range)
    requires 0 <= item.start < item.end
    ensures Printed([item]) ==
            (if item.end == item.start + 1 then Format(item.end) else Format(item.start + 1) + Ascii("-") + Format(item.end))
              + (if item.inheritable then [] else Ascii("*"))
  {
    OnePart(item);
    assert Ascii("-") == [MINUS] && Ascii("*") == [STAR];
  }

  lemma {:induction false} PartsMore(list: Rangelist, item: Range)
    requires RangeText(item).Some?
    ensures Parts(list + [item]) == Parts(list) + [RangeText(item).value]
  {
    var texts, more := Texts(list), Texts(list + [item]);
    KeepPrefix(texts, more, |list|);
    assert more[|list|] == RangeText(item);
  }

  lemma {:induction false} SomeParts(list: Rangelist)
    requires list != [] && RangeText(list[|list| - 1]).Some?
    ensures Parts(list) != []
  {
    assert Texts(list)[|list| - 1] == RangeText(list[|list| - 1]);
  }

  /** Several ranges stand one behind the other, with commas between them. */
  lemma {:induction false} RangesForm(list: Rangelist, item: Range)
    requires list != [] && forall i :: 0 <= i < |list| ==> 0 <= list[i].start < list[i].end
    requires 0 <= item.start < item.end
    ensures Printed(list + [item]) == Printed(list) + Ascii(",") + Printed([item])
  {
    OnePart(list[|list| - 1]);
    OnePart(item);
    SomeParts(list);
    PartsMore(list, item);
    JoinOneMore(Parts(list), RangeText(item).value, COMMA);
    assert Ascii(",") == [COMMA];
  }

  lemma {:induction false} KeepPrefix(a: seq<Option<Text>>, b: seq<Option<Text>>, n: nat)
    requires n <= |a| && n <= |b| && forall i :: 0 <= i < n ==> a[i] == b[i]
    ensures KeepSome(a, n) == KeepSome(b, n)
  {
    if n > 0 { KeepPrefix(a, b, n - 1); }
  }

  /** The text names exactly these revisions: a range of it says what its range says. */
  lemma {:induction false} ReadsAsRange(item: Range)
    requires 0 <= item.start < item.end <= MAX_INT64
    ensures Parsed(Printed([item])) == Ok([item])
    ensures forall r :: At([item], r) == Meaning(item.start + 1 <= r <= item.end, item.start + 1 <= r <= item.end && item.inheritable)
  {
    RangelistRoundTrip([item]);
    forall r
      ensures At([item], r) == Meaning(item.start + 1 <= r <= item.end, item.start + 1 <= r <= item.end && item.inheritable)
    {
      assert Covers([item][0], r) <==> item.start + 1 <= r <= item.end;
    }
  }

  lemma {:induction false} EntriesMore(info: Info, paths: seq<Text>, path: Text, more: seq<Text>)
    requires more == paths + [path] && (forall p :: p in paths ==> p in info) && (forall p :: p in more ==> p in info)
    ensures path in info
    ensures Entries(info, more, |more|) ==
            if Normalized(info[path]) == [] then Entries(info, paths, |paths|)
            else Entries(info, paths, |paths|) + [Entry(path, Normalized(info[path]))]
  {
    EntriesOfPrefix(info, paths, more, |paths|);
    assert more[|paths|] == path;
  }

  lemma {:induction false} LinesMore(entries: seq<Entry>, path: Text, list: Rangelist)
    requires forall i :: 0 <= i < |entries| ==> entries[i].Entry?
    ensures LinesText(entries + [Entry(path, list)]) ==
            (if entries == [] then [] else LinesText(entries) + Ascii("\n")) + (path + Ascii(":") + Printed(list))
  {
    assert LinesOf(entries + [Entry(path, list)]) == LinesOf(entries) + [Line(path, list)];
    JoinOneMore(LinesOf(entries), Line(path, list), NEWLINE);
    assert Ascii("\n") == [NEWLINE] && Ascii(":") == [COLON];
  }

  /** No paths print nothing; each further path with a list adds a line, of the path, a colon and the
      normalized list. */
  lemma {:induction false} InfoForm(info: Info, paths: seq<Text>, path: Text, more: seq<Text>)
    requires more == paths + [path] && (forall p :: p in paths ==> p in info) && (forall p :: p in more ==> p in info)
    ensures path in info
    ensures PrintedInfo(info, []) == []
    ensures PrintedInfo(info, more) ==
            if Normalized(info[path]) == [] then PrintedInfo(info, paths)
            else (if Entries(info, paths, |paths|) == [] then [] else PrintedInfo(info, paths) + Ascii("\n"))
                   + (path + Ascii(":") + Printed(Normalized(info[path])))
  {
    EntriesMore(info, paths, path, more);
    NoLines(info);
    LinesMore(Entries(info, paths, |paths|), path, Normalized(info[path]));
  }

  lemma {:induction false} NoLines(info: Info)
    ensures PrintedInfo(info, []) == []
  {
  }

  lemma {:induction false} EntriesOfPrefix(info: Info, a: seq<Text>, b: seq<Text>, n: nat)
    requires n <= |a| && n <= |b| && forall i :: 0 <= i < n ==> a[i] == b[i]
    requires (forall p :: p in a ==> p in info) && forall p :: p in b ==> p in info
    ensures Entries(info, a, n) == Entries(info, b, n)
  {
    if n > 0 { EntriesOfPrefix(info, a, b, n - 1); }
  }
}
