/** Which names and payloads a ZIP archive takes, told by the rules for names and the reach of 32-bit numbers. */
module ZipAdmission {
  import opened ByteStrings
  import opened Outcomes
  import opened ZipFormat
  import opened ZipArchives
  import EntryNames
  import NameRules

  /** A name is refused as too long, as unsafe, or as taken, in this order, and for no other reason. */
  lemma NameVerdict(es: seq<Entry>, name: seq<byte>)
    ensures Preflight(es, name) ==
              if |name| > 255 then LimitError
              else if !NameRules.SafelyNamed(name) then UnsafeName
              else if exists e <- es :: e.name == name then Duplicate
              else Ok
  {
    hide EntryNames.UnsafeName, NameRules.SafelyNamed;
    NameRules.SafeExactly(name);
  }

  /** Bytes are added exactly if the archive is open and takes the name, and the size can be said in 32 bits. */
  lemma AddedExactly(es: seq<Entry>, name: seq<byte>, size: nat, open: bool)
    ensures AddVerdict(es, name, size, open) ==
              if !open then InvalidArgument
              else if |name| > 255 then LimitError
              else if !NameRules.SafelyNamed(name) then UnsafeName
              else if exists e <- es :: e.name == name then Duplicate
              else if size > 0xFFFF_FFFF then LimitError
              else Ok
  {
    hide Preflight, NameRules.SafelyNamed;
    NameVerdict(es, name);
  }

  /** The search gives the first entry of the name, or the number of entries if there is none. */
  lemma {:induction false} FindsTheFirst(es: seq<Entry>, name: seq<byte>)
    ensures var i := Find(es, name);
            && i <= |es| && (i < |es| ==> es[i].name == name) && forall k :: 0 <= k < i ==> es[k].name != name
  {
    if es != [] { FindsTheFirst(es[1..], name); }
  }
}
