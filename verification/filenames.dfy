/** File names: `os.path.basename` and `os.path.splitext` (POSIX rules), the
    `<base>_<n><ext>` counter loop that avoids overwriting an existing file,
    and the name `save_string_to_file` writes to. */
module Filenames {
  import opened Strings

  // ---------------------------------------------------------------------------
  // posixpath.basename and posixpath.splitext

  /** `r` is a final component of `p`: a slash-free tail of `p` that is the
      whole of `p` or follows a `/`. */
  predicate FinalComponent(p: string, r: string) {
    NoneIn(r, {'/'}) && EndsWith(p, r) && (|r| == |p| || p[|p| - |r| - 1] == '/')
  }

  /** The final component: everything after the last `/`. */
  function Basename(p: string): (r: string)
    ensures FinalComponent(p, r)
    ensures r == "" <==> (p == "" || p[|p| - 1] == '/')
  {
    var i := LastOf(p, '/');
    AfterLast(p, '/', i);
    assert i + 1 < |p| ==> p[|p| - 1] == p[i + 1..][|p| - i - 2];
    p[i + 1..]
  }

  /** The final component is determined: `Basename` is the only one. */
  lemma BasenameUnique(p: string, a: string, b: string)
    requires FinalComponent(p, a) && FinalComponent(p, b)
    ensures a == b
  {
  }

  lemma AfterLast(p: string, c: char, i: int)
    requires -1 <= i < |p| && forall j :: i < j < |p| ==> p[j] != c
    ensures NoneIn(p[i + 1..], {c})
  {
    var r := p[i + 1..];
    forall j | 0 <= j < |r| ensures r[j] !in {c} {
      assert r[j] == p[i + 1 + j];
    }
  }

  predicate HasNonDot(s: string) {
    exists j :: 0 <= j < |s| && s[j] != '.'
  }

  /** A dot followed by characters that are neither dots nor slashes. */
  predicate IsExtension(e: string) {
    |e| > 0 && e[0] == '.' && NoneIn(e[1..], {'.', '/'})
  }

  /** `splitext`: the extension starts at the last dot of the final component,
      provided some character other than a dot precedes that dot within the
      component (leading dots mark hidden files, not extensions). */
  function SplitExt(p: string): (r: (string, string))
    ensures r.0 + r.1 == p
    ensures r.1 == "" || IsExtension(r.1)
    ensures r.1 != "" ==> LastOf(p, '/') < |r.0| && HasNonDot(r.0[LastOf(p, '/') + 1..])
    ensures r.1 == "" ==> forall j :: LastOf(p, '/') < j < |p| && p[j] == '.' ==> !HasNonDot(p[LastOf(p, '/') + 1..j])
  {
    var sep := LastOf(p, '/');
    var dot := LastOf(p, '.');
    if dot > sep && HasNonDot(p[sep + 1..dot]) then
      ExtensionShape(p, sep, dot);
      (p[..dot], p[dot..])
    else
      NoExtensionShape(p, sep, dot);
      (p, "")
  }

  /** Without an extension, every dot of the final component has only dots
      in front of it within the component. */
  lemma NoExtensionShape(p: string, sep: int, dot: int)
    requires sep == LastOf(p, '/') && dot == LastOf(p, '.')
    requires !(dot > sep && HasNonDot(p[sep + 1..dot]))
    ensures forall j :: sep < j < |p| && p[j] == '.' ==> !HasNonDot(p[sep + 1..j])
  {
    forall j | sep < j < |p| && p[j] == '.' ensures !HasNonDot(p[sep + 1..j]) {
      assert sep < j <= dot;
      DotsPrefix(p, sep + 1, j, dot);
    }
  }

  lemma DotsPrefix(p: string, lo: nat, j: nat, hi: nat)
    requires lo <= j <= hi <= |p| && !HasNonDot(p[lo..hi])
    ensures !HasNonDot(p[lo..j])
  {
    var whole, part := p[lo..hi], p[lo..j];
    forall i | 0 <= i < |part| ensures part[i] == '.' {
      assert part[i] == whole[i];
    }
  }

  lemma ExtensionShape(p: string, sep: int, dot: int)
    requires sep == LastOf(p, '/') && dot == LastOf(p, '.') && dot > sep
    requires HasNonDot(p[sep + 1..dot])
    ensures p[..dot] + p[dot..] == p && p[dot..][0] == '.'
    ensures IsExtension(p[dot..])
    ensures HasNonDot(p[..dot][sep + 1..])
  {
    ExtensionTail(p, sep, dot);
    assert p[..dot][sep + 1..] == p[sep + 1..dot];
  }

  /** The text from the last dot on, past the last slash, is an extension. */
  lemma ExtensionTail(p: string, sep: int, dot: int)
    requires sep == LastOf(p, '/') && dot == LastOf(p, '.') && 0 <= dot && sep < dot
    ensures IsExtension(p[dot..])
  {
    var tail := p[dot + 1..];
    forall j | 0 <= j < |tail| ensures tail[j] !in {'.', '/'} {
      assert tail[j] == p[dot + 1 + j];
    }
    assert p[dot..][1..] == tail;
  }

  /** An extension appended to a name without `/` that has a character
      other than a dot is split off again. */
  lemma AppendedExtension(name: string, ext: string)
    requires NoneIn(name, {'/'}) && HasNonDot(name)
    requires IsExtension(ext)
    ensures SplitExt(name + ext) == (name, ext)
  {
    var p := name + ext;
    forall j | |name| < j < |p| ensures p[j] != '/' && p[j] != '.' {
      assert p[j] == ext[1..][j - |name| - 1];
    }
    forall j | 0 <= j < |name| ensures p[j] != '/' {
      assert p[j] == name[j];
    }
    LastOfUnique(p, '/', -1);
    LastOfUnique(p, '.', |name|);
    assert p[0..|name|] == name;
  }

  // ---------------------------------------------------------------------------
  // The counter loop

  /** The name tried after `k` collisions: the name itself, then
      `<base>_1<ext>`, `<base>_2<ext>`, ... */
  function Candidate(base: string, ext: string, k: nat): string {
    if k == 0 then base + ext else base + "_" + Decimal(k) + ext
  }

  /** Different counters give different names. */
  lemma CandidateInjective(base: string, ext: string, i: nat, j: nat)
    requires Candidate(base, ext, i) == Candidate(base, ext, j)
    ensures i == j
  {
    if i != 0 && j != 0 {
      var a, b := Candidate(base, ext, i), Candidate(base, ext, j);
      var di, dj := Decimal(i), Decimal(j);
      assert |di| == |dj|;
      assert di == a[|base| + 1..|base| + 1 + |di|];
      assert dj == b[|base| + 1..|base| + 1 + |dj|];
      DecimalInjective(i, j);
    }
  }

  /** The names tried before counter `n`. */
  function Tried(base: string, ext: string, n: nat): set<string> {
    set j | 0 <= j < n :: Candidate(base, ext, j)
  }

  lemma {:induction false} TriedSize(base: string, ext: string, n: nat)
    ensures |Tried(base, ext, n)| == n
  {
    if n > 0 {
      TriedSize(base, ext, n - 1);
      var c := Candidate(base, ext, n - 1);
      assert Tried(base, ext, n) == Tried(base, ext, n - 1) + {c};
      if c in Tried(base, ext, n - 1) {
        var j :| 0 <= j < n - 1 && Candidate(base, ext, j) == c;
        CandidateInjective(base, ext, j, n - 1);
      }
    }
  }

  /** Names all found taken can be no more than the names taken. */
  lemma TriedBound(base: string, ext: string, taken: set<string>, n: nat)
    requires forall j :: 0 <= j < n ==> Candidate(base, ext, j) in taken
    ensures n <= |taken|
  {
    TriedSize(base, ext, n);
    SubsetSize(Tried(base, ext, n), taken);
  }

  lemma {:induction false} SubsetSize<T>(a: set<T>, b: set<T>)
    requires a <= b
    ensures |a| <= |b|
    decreases a
  {
    if a != {} {
      var x :| x in a;
      SubsetSize(a - {x}, b - {x});
    }
  }

  /** The first counter from `k` on whose name is free. */
  function FirstFreeFrom(base: string, ext: string, taken: set<string>, k: nat): (r: nat)
    requires forall j :: 0 <= j < k ==> Candidate(base, ext, j) in taken
    ensures k <= r && Candidate(base, ext, r) !in taken
    ensures forall j :: 0 <= j < r ==> Candidate(base, ext, j) in taken
    decreases |taken| - k
  {
    TriedBound(base, ext, taken, k);
    if Candidate(base, ext, k) in taken then
      TriedBound(base, ext, taken, k + 1);
      FirstFreeFrom(base, ext, taken, k + 1)
    else k
  }

  /** The counter the loop stops at: the least one whose name is free. */
  function FirstFree(base: string, ext: string, taken: set<string>): (r: nat)
    ensures Candidate(base, ext, r) !in taken
    ensures forall j :: 0 <= j < r ==> Candidate(base, ext, j) in taken
  {
    FirstFreeFrom(base, ext, taken, 0)
  }

  /** The loop as written: start from the name itself and count up until the
      name is not taken. */
  method ResolveCollision(base: string, ext: string, taken: set<string>) returns (name: string)
    ensures name !in taken
    ensures name == Candidate(base, ext, FirstFree(base, ext, taken))
  {
    name := base + ext;
    var counter: nat := 1;
    while name in taken
      invariant name == Candidate(base, ext, counter - 1)
      invariant forall j :: 0 <= j < counter - 1 ==> Candidate(base, ext, j) in taken
      decreases |taken| - counter + 1
    {
      TriedBound(base, ext, taken, counter);
      name := base + "_" + Decimal(counter) + ext;
      counter := counter + 1;
    }
  }

  // ---------------------------------------------------------------------------
  // save_string_to_file

  const Forbidden: set<char> := {'<', '>', ':', '"', '/', '\\', '|', '?', '*'}

  /** Every character that is not allowed in a file name becomes `_`. */
  function Sanitize(name: string): (r: string)
    ensures |r| == |name|
    ensures NoneIn(r, Forbidden)
    ensures forall i :: 0 <= i < |name| && name[i] !in Forbidden ==> r[i] == name[i]
  {
    seq(|name|, i requires 0 <= i < |name| => if name[i] in Forbidden then '_' else name[i])
  }

  lemma SanitizeClean(name: string)
    requires NoneIn(name, Forbidden)
    ensures Sanitize(name) == name
  {
  }

  /** The file `save_string_to_file` writes: the sanitized name, or the first
      counter variant of it that no existing file of the folder has. */
  function SaveName(filename: string, existing: set<string>): (r: string)
    ensures r !in existing
    ensures NoneIn(r, Forbidden)
    ensures Sanitize(filename) !in existing ==> r == Sanitize(filename)
    ensures var (base, ext) := SplitExt(Sanitize(filename));
      exists k: nat :: r == Candidate(base, ext, k) && forall j :: 0 <= j < k ==> Candidate(base, ext, j) in existing
  {
    var clean := Sanitize(filename);
    var (base, ext) := SplitExt(clean);
    var k := FirstFree(base, ext, existing);
    CandidateClean(base, ext, k);
    Candidate(base, ext, k)
  }

  lemma CandidateClean(base: string, ext: string, k: nat)
    requires NoneIn(base + ext, Forbidden)
    ensures NoneIn(Candidate(base, ext, k), Forbidden)
  {
    var c := Candidate(base, ext, k);
    if k > 0 {
      var d := Decimal(k);
      assert c == base + ("_" + d) + ext;
      forall j | 0 <= j < |c| ensures c[j] !in Forbidden {
        if j < |base| {
          assert c[j] == (base + ext)[j];
        } else if j < |base| + 1 + |d| {
          assert c[j] == ("_" + d)[j - |base|];
        } else {
          assert c[j] == (base + ext)[j - 1 - |d|];
        }
      }
    }
  }
}
