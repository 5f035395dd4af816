/** What an accepted note carries: a quorum of different keys, not only of different names, and in which
    of its lists each line of an unknown key is named. */
module ProofNoteMeaning {
  import opened Bytes
  import CF = CheckpointFormat
  import opened Notes
  import opened ProofNote

  // ------------------------------------------------------------------ the quorum

  /** The key made a timestamped cosignature of the note's text. */
  ghost predicate KeySigned(key: Key, n: Note) {
    exists i :: 0 <= i < |n.lines| && n.lines[i].blob.CosignatureBlob?
                && n.lines[i].blob.ed == Ed(key, CosignedMessage(n.lines[i].blob.time, n.text))
  }

  /** The keys of the policy's witnesses that signed the note. */
  ghost function SigningKeys(p: Policy, n: Note): set<Key> {
    set a | a in p.witnesses && KeySigned(p.witnesses[a], n) :: p.witnesses[a]
  }

  lemma {:induction false} ImageSize(names: set<Bytes>, keys: map<Bytes, Key>)
    requires names <= keys.Keys
    requires forall a, b :: a in names && b in names && keys[a] == keys[b] ==> a == b
    ensures |set a | a in names :: keys[a]| == |names|
  {
    if names == {} {
      assert (set a | a in names :: keys[a]) == {};
    } else {
      var x :| x in names;
      var rest := names - {x};
      ImageSize(rest, keys);
      assert (set a | a in names :: keys[a]) == (set a | a in rest :: keys[a]) + {keys[x]};
    }
  }

  lemma SubsetSize<T>(a: set<T>, b: set<T>)
    requires a <= b
    ensures |a| <= |b|
  {
    assert b == a + (b - a);
  }

  /** A witness counted by the policy signed with its own key. */
  lemma CosignerSigned(k: Keys, p: Policy, n: Note, a: Bytes)
    requires !Spoiling(k, p, n.text, n.lines) && a in CosignerSet(k, p, n.lines, 0)
    ensures a in p.witnesses && KeySigned(p.witnesses[a], n) && |n.text| <= 0x1_0000
  {
    hide CosignedMessage, LogOf, Spoiling;
    var j :| 0 <= j < |n.lines| && IsWitnessLine(k, p, n.lines[j]) && n.lines[j].name == a;
    assert !Spoils(k, p, n.text, n.lines[j]) by { NotSpoiled(k, p, n, j); }
  }

  lemma NotSpoiled(k: Keys, p: Policy, n: Note, j: nat)
    requires !Spoiling(k, p, n.text, n.lines) && j < |n.lines|
    ensures !Spoils(k, p, n.text, n.lines[j])
  {
    hide Spoils;
  }

  /** A note that is accepted was signed, over its own text, with at least as many different keys of the
      policy's witnesses as its quorum: one key under two names counts once. A text that was cosigned has
      at most 64 KiB. */
  lemma QuorumOfKeys(k: Keys, p: Policy, order: seq<Bytes>, n: Note)
    requires Lists(order, p) && Judge(k, p, order, n).Accepted?
    ensures |SigningKeys(p, n)| >= p.quorum && (p.quorum > 0 ==> |n.text| <= 0x1_0000)
  {
    hide Judge, KeySigned, CosignerSet, CF.Parse, Spoiling, LogSigned;
    VerdictExact(k, p, order, n);
    var names := CosignerSet(k, p, n.lines, 0);
    forall a | a in names ensures a in p.witnesses && KeySigned(p.witnesses[a], n) {
      CosignerSigned(k, p, n, a);
    }
    if p.quorum > 0 {
      var a :| a in names;
      CosignerSigned(k, p, n, a);
    }
    ImageSize(names, p.witnesses);
    SubsetSize(set a | a in names :: p.witnesses[a], SigningKeys(p, n));
  }

  /** A policy is refused before the note is looked at exactly when something is wrong with it. */
  lemma PolicyExact(k: Keys, p: Policy, order: seq<Bytes>, n: Note)
    requires Lists(order, p)
    ensures Judge(k, p, order, n) != Refused(BadPolicy)
            <==> && p.origin != [] && k.validName(p.origin) && |p.logKey| == 32 && 0 <= p.quorum <= |p.witnesses|
                 && forall a :: a in p.witnesses ==>
                      |p.witnesses[a]| == 32
                      && forall b :: b in p.witnesses && b != a ==> p.witnesses[b] != p.witnesses[a]
  {
    hide VerifyCheckpoint, ScanLines, NamesOf;
  }

  /** A note that is accepted is a checkpoint of the policy's log, signed over its own text with the
      log's key, and reported as it reads. */
  lemma LogKeySigned(k: Keys, p: Policy, order: seq<Bytes>, n: Note) returns (i: nat)
    requires Lists(order, p) && Judge(k, p, order, n).Accepted?
    ensures i < |n.lines| && n.lines[i].name == p.origin && n.lines[i].blob == LogBlob(Ed(p.logKey, n.text))
    ensures CF.Parse(n.text) == CF.Ok(Judge(k, p, order, n).checkpoint)
    ensures Judge(k, p, order, n).checkpoint.origin == p.origin
  {
    hide Judge, CosignerSet, CF.Parse, Spoiling;
    VerdictExact(k, p, order, n);
    i :| i < |n.lines| && IsLogLine(k, p, n.lines[i]);
    NotSpoiled(k, p, n, i);
  }

  // ------------------------------------------------------------- the other lines

  ghost predicate UnknownLine(k: Keys, p: Policy, lines: seq<SigLine>, l: SigLine) {
    l in lines && !IsKnown(k, p, l)
  }

  /** Opening sets aside exactly the lines of unknown keys. */
  lemma {:induction false} SetsAside(k: Keys, p: Policy, order: seq<Bytes>, text: Bytes, lines: seq<SigLine>,
                                     done: Checked, l: SigLine)
    requires Lists(order, p)
    ensures var r := OpenLines([LogOf(k, p)] + Witnesses(k, p, order), text, lines, done);
            r.Opened? ==> (l in r.unverified <==> l in done.unverified || UnknownLine(k, p, lines, l))
    decreases |lines|
  {
    if lines == [] {
      NoLines(k, p, order, text, done);
    } else {
      LookupKnown(k, p, order, lines[0]);
      var next := if !IsKnown(k, p, lines[0])
                  then (if lines[0] in done.unverified then done
                        else done.(unverified := done.unverified + [lines[0]]))
                  else if SeenKey(done.sigs, lines[0]) then done else done.(sigs := done.sigs + [lines[0]]);
      SetsAside(k, p, order, text, lines[1..], next, l);
      assert l in lines <==> l == lines[0] || l in lines[1..];
      hide LogOf, Witnesses, WitnessOf, Verifies, Lookup;
    }
  }

  lemma {:induction false} NamesExact(lines: seq<SigLine>, p: Policy, extra: bool, x: Bytes)
    ensures x in NamesOf(lines, p, extra)
            <==> exists i :: 0 <= i < |lines| && lines[i].name == x && IsLogExtra(p, lines[i]) == extra
  {
    hide IsLogExtra;
    if lines != [] {
      NamesExact(lines[1..], p, extra, x);
      assert forall i :: 0 < i < |lines| ==> lines[i] == lines[1..][i - 1];
      assert forall i :: 0 <= i < |lines[1..]| ==> lines[1..][i] == lines[i + 1];
    }
  }

  /** The note has a line of an unknown key with this name; and the line is, or is not, one of the log's
      extra signatures: under the log's own name, of the size of an ML-DSA-44 signature. */
  ghost predicate Aside(k: Keys, p: Policy, n: Note, x: Bytes, extra: bool) {
    exists i :: 0 <= i < |n.lines| && n.lines[i].name == x && !IsKnown(k, p, n.lines[i])
                && extra == (x == p.origin && n.lines[i].blob.OtherBlob? && |n.lines[i].blob.bytes| == 2420)
  }

  /** Of an accepted note, the lines of unknown keys are named in one of two lists: the log's extra
      signatures, and the lines that were ignored. */
  lemma AsideExact(k: Keys, p: Policy, order: seq<Bytes>, n: Note, x: Bytes)
    requires Lists(order, p) && Judge(k, p, order, n).Accepted?
    ensures x in Judge(k, p, order, n).logExtra <==> Aside(k, p, n, x, true)
    ensures x in Judge(k, p, order, n).ignored <==> Aside(k, p, n, x, false)
  {
    hide IsKnown, IsLogExtra, NamesOf, Aside, CF.Parse, ScanLines, PolicyValid, OpenLines;
    var known := [LogOf(k, p)] + Witnesses(k, p, order);
    var r := OpenLines(known, n.text, n.lines, Notes.Opened([], []));
    forall l ensures l in r.unverified <==> l in n.lines && !IsKnown(k, p, l) {
      SetsAside(k, p, order, n.text, n.lines, Notes.Opened([], []), l);
    }
    NamesExact(r.unverified, p, true, x);
    NamesExact(r.unverified, p, false, x);
    AsideIs(k, p, n, r.unverified, x, true);
    AsideIs(k, p, n, r.unverified, x, false);
  }

  lemma AsideIs(k: Keys, p: Policy, n: Note, unknown: seq<SigLine>, x: Bytes, extra: bool)
    requires forall l :: l in unknown <==> l in n.lines && !IsKnown(k, p, l)
    ensures (exists i :: 0 <= i < |unknown| && unknown[i].name == x && IsLogExtra(p, unknown[i]) == extra)
            <==> Aside(k, p, n, x, extra)
  {
    hide IsKnown;
    if i :| 0 <= i < |unknown| && unknown[i].name == x && IsLogExtra(p, unknown[i]) == extra {
      assert unknown[i] in n.lines;
      var j :| 0 <= j < |n.lines| && n.lines[j] == unknown[i];
      assert unknown[i] in unknown && !IsKnown(k, p, n.lines[j]);
    }
    if Aside(k, p, n, x, extra) {
      var j :| 0 <= j < |n.lines| && n.lines[j].name == x && !IsKnown(k, p, n.lines[j])
               && extra == (x == p.origin && n.lines[j].blob.OtherBlob? && |n.lines[j].blob.bytes| == 2420);
      assert n.lines[j] in n.lines;
      var i :| 0 <= i < |unknown| && unknown[i] == n.lines[j];
    }
  }
}
