/** The priority lexer of scanner.go: at the cursor, the patterns of the
    syntax map are tried in table order and the first that matches makes the
    token; blanks are skipped by scanning again.

    Matching takes `fuel` (see `RegexMatch`); a scan that runs out of fuel,
    or that would rescan forever after a blank of length zero, is reported as
    `Unfinished` rather than as a token. */
module Scanning {
  import opened RegexGraph
  import opened RegexMatch

  /** A token's trait: one of the numbered traits of the syntax map, or the
      end-of-file marker, which no pattern carries. */
  datatype Trait = Trait(n: nat) | Eof

  /** The traits the scanner itself refers to (their place in trait.go's list). */
  const NoTrait: Trait := Trait(0)
  const Blank: Trait := Trait(3)

  /** `Token{Index, Expr, Trait, Ok}`. */
  datatype Token = Token(index: int, expr: seq<byte>, kind: Trait, ok: bool)

  /** A syntax-map entry: a trait and the compiled pattern that yields it. */
  datatype Pattern = Pattern(kind: nat, rx: Regex)

  /** Every pattern of the table has a graph and a head to match from. */
  predicate Table(smap: seq<Pattern>)
  {
    forall i :: 0 <= i < |smap| ==>
      Wf(smap[i].rx.g) && smap[i].rx.head.Ref? && smap[i].rx.head.node < |smap[i].rx.g|
  }

  /** The outcome of trying the table: the first pattern that matched and its
      length, none matched, or a match ran out of fuel. */
  datatype Hit = Found(k: nat, len: nat) | NotFound | FuelOut

  /** The loop of `match`: try the patterns from the `from`-th on, in order. */
  function FirstHit(smap: seq<Pattern>, text: seq<byte>, from: nat, fuel: nat): (r: Hit)
    requires Table(smap) && from <= |smap|
    ensures r.Found? ==> from <= r.k < |smap| && r.len <= |text| &&
                         Match(smap[r.k].rx, text, fuel) == Done(r.len)
    ensures r.Found? ==> forall j :: from <= j < r.k ==> Match(smap[j].rx, text, fuel) == Done(-1)
    ensures r.NotFound? <==> forall j :: from <= j < |smap| ==> Match(smap[j].rx, text, fuel) == Done(-1)
    decreases |smap| - from
  {
    if from == |smap| then NotFound
    else
      match Match(smap[from].rx, text, fuel)
      case OutOfFuel => FuelOut
      case Done(m) => if m != -1 then Found(from, m) else FirstHit(smap, text, from + 1, fuel)
  }

  /** A scan: the token and the cursor after it, or no result. */
  datatype Scan = Scanned(tok: Token, cur: nat) | Unfinished

  /** `match` from cursor `cur`. */
  function Step(src: seq<byte>, cur: nat, smap: seq<Pattern>, fuel: nat): (r: Scan)
    requires |src| > 0 && cur <= |src| && Table(smap)
    ensures r.Scanned? ==> cur <= r.cur <= |src|
  {
    if cur >= |src| then Scanned(Token(|src| - 1, src[|src| - 1..], Eof, false), cur)
    else
      match FirstHit(smap, src[cur..], 0, fuel)
      case FuelOut => Unfinished
      case NotFound => Scanned(Token(0, "<unreachable>", NoTrait, false), cur)
      case Found(k, m) => Scanned(Token(cur, src[cur..cur + m], Trait(smap[k].kind), true), cur + m)
  }

  /** `Tokenize` from cursor `cur`: scan until the token is not a blank. */
  function Tokens(src: seq<byte>, cur: nat, smap: seq<Pattern>, fuel: nat): (r: Scan)
    requires |src| > 0 && cur <= |src| && Table(smap)
    ensures r.Scanned? ==> r.tok.kind != Blank && cur <= r.cur <= |src|
    decreases |src| - cur
  {
    match Step(src, cur, smap, fuel)
    case Unfinished => Unfinished
    case Scanned(tok, next) =>
      if tok.kind != Blank then Scanned(tok, next)
      else if next <= cur then Unfinished
      else Tokens(src, next, smap, fuel)
  }

  // ---------------------------------------------------------------------------
  // Properties of a scan

  /** The end-of-file token comes exactly when the cursor has reached the
      end; it holds the last source byte and leaves the cursor in place. */
  lemma StepAtEnd(src: seq<byte>, cur: nat, smap: seq<Pattern>, fuel: nat)
    requires |src| > 0 && cur <= |src| && Table(smap)
    ensures var r := Step(src, cur, smap, fuel);
      (cur >= |src| ==> r.Scanned? && r.cur == cur && !r.tok.ok &&
                        r.tok.expr == [src[|src| - 1]] && r.tok.index == |src| - 1) &&
      (r.Scanned? ==> (r.tok.kind == Eof <==> cur >= |src|))
  {
    if cur >= |src| {
      assert src[|src| - 1..] == [src[|src| - 1]];
    }
  }

  /** A matched token is the first pattern, in table order, that matches at
      the cursor; its bytes are the source from the old cursor on, and the
      cursor moves past them without leaving the source. */
  lemma StepFound(src: seq<byte>, cur: nat, smap: seq<Pattern>, fuel: nat)
    requires |src| > 0 && cur < |src| && Table(smap)
    requires Step(src, cur, smap, fuel).Scanned? && Step(src, cur, smap, fuel).tok.ok
    ensures var r := Step(src, cur, smap, fuel);
      cur <= r.cur <= |src| && r.tok.index == cur && r.tok.expr == src[cur..r.cur] &&
      exists k ::
        0 <= k < |smap| && r.tok.kind == Trait(smap[k].kind) &&
        Match(smap[k].rx, src[cur..], fuel) == Done(r.cur - cur) &&
        forall j :: 0 <= j < k ==> Match(smap[j].rx, src[cur..], fuel) == Done(-1)
  {
    var h := FirstHit(smap, src[cur..], 0, fuel);
    assert h.Found?;
  }

  /** When no pattern matches, the token is a failed `None` token and the
      cursor stays; and that happens only then. */
  lemma StepNotFound(src: seq<byte>, cur: nat, smap: seq<Pattern>, fuel: nat)
    requires |src| > 0 && cur < |src| && Table(smap)
    ensures var r := Step(src, cur, smap, fuel);
      (forall j :: 0 <= j < |smap| ==> Match(smap[j].rx, src[cur..], fuel) == Done(-1)) <==>
      (r.Scanned? && !r.tok.ok && r.tok.kind == NoTrait && r.cur == cur)
  {
  }

  /** `Tokenize` never yields a blank, always ends inside the source, and a
      matched token is the source bytes before the final cursor. */
  lemma {:induction false} TokensNotBlank(src: seq<byte>, cur: nat, smap: seq<Pattern>, fuel: nat)
    requires |src| > 0 && cur <= |src| && Table(smap)
    ensures var r := Tokens(src, cur, smap, fuel);
      r.Scanned? ==> r.tok.kind != Blank && cur <= r.cur <= |src| &&
                     (r.tok.ok ==> cur <= r.tok.index <= r.cur && r.tok.expr == src[r.tok.index..r.cur])
    decreases |src| - cur
  {
    var s := Step(src, cur, smap, fuel);
    if s.Scanned? && s.tok.ok {
      StepFound(src, cur, smap, fuel);
    } else if s.Scanned? && cur < |src| {
      StepNotFound(src, cur, smap, fuel);
    }
    if s.Scanned? && s.tok.kind == Blank && s.cur > cur {
      TokensNotBlank(src, s.cur, smap, fuel);
    }
  }

  /** A token that is not a blank is returned by `Tokenize` as it is. */
  lemma TokensFirst(src: seq<byte>, cur: nat, smap: seq<Pattern>, fuel: nat)
    requires |src| > 0 && cur <= |src| && Table(smap)
    requires Step(src, cur, smap, fuel).Scanned? && Step(src, cur, smap, fuel).tok.kind != Blank
    ensures Tokens(src, cur, smap, fuel) == Step(src, cur, smap, fuel)
  {
  }

  // ---------------------------------------------------------------------------
  // The scanner object

  class Scanner {
    const src: seq<byte>
    var cur: nat
    const smap: seq<Pattern>

    ghost predicate Valid()
      reads this
    {
      |src| > 0 && cur <= |src| && Table(smap)
    }

    /** `NewScanner`: the cursor starts at the beginning. */
    constructor (src: seq<byte>, smap: seq<Pattern>)
      requires |src| > 0 && Table(smap)
      ensures this.src == src && this.smap == smap && cur == 0 && Valid()
    {
      this.src := src;
      this.smap := smap;
      cur := 0;
    }

    /** `Finished`: the cursor has reached the end of the source. */
    predicate Finished()
      reads this
      ensures Valid() && Finished() ==>
        forall fuel: nat :: Step(src, cur, smap, fuel).Scanned? && Step(src, cur, smap, fuel).tok.kind == Eof
      ensures Valid() && !Finished() ==>
        forall fuel: nat :: Step(src, cur, smap, fuel).Scanned? ==> Step(src, cur, smap, fuel).tok.kind != Eof
    {
      cur >= |src|
    }

    /** The loop of `match`: try the patterns in table order and stop at the
        first that matches or runs out of fuel. */
    method TryAll(text: seq<byte>, fuel: nat) returns (hit: Hit)
      requires Table(smap)
      ensures hit == FirstHit(smap, text, 0, fuel)
    {
      hit := NotFound;
      for i := 0 to |smap|
        invariant hit == NotFound && FirstHit(smap, text, 0, fuel) == FirstHit(smap, text, i, fuel)
      {
        var m := RegexMatch.Match(smap[i].rx, text, fuel);
        if m.OutOfFuel? {
          hit := FuelOut;
          break;
        }
        if m.at != -1 {
          hit := Found(i, m.at);
          break;
        }
      }
    }

    /** `match`: the next token at the cursor, advancing past it. */
    method Match(fuel: nat) returns (r: Scan)
      requires Valid()
      modifies this
      ensures Valid()
      ensures r == Step(src, old(cur), smap, fuel)
      ensures cur == if r.Scanned? then r.cur else old(cur)
    {
      if Finished() {
        return Scanned(Token(|src| - 1, src[|src| - 1..], Eof, false), cur);
      }
      var hit := TryAll(src[cur..], fuel);
      if hit.Found? {
        var index := cur;
        cur := cur + hit.len;
        r := Scanned(Token(index, src[index..cur], Trait(smap[hit.k].kind), true), cur);
      } else if hit.FuelOut? {
        r := Unfinished;
      } else {
        r := Scanned(Token(0, "<unreachable>", NoTrait, false), cur);
      }
    }

    /** `Tokenize`: match again while the token is a blank. */
    method Tokenize(fuel: nat) returns (r: Scan)
      requires Valid()
      modifies this
      ensures Valid()
      ensures r == Tokens(src, old(cur), smap, fuel)
      ensures r.Scanned? ==> cur == r.cur
      decreases |src| - cur
    {
      var start := cur;
      r := Match(fuel);
      if r.Scanned? && r.tok.kind == Blank {
        if cur <= start {
          r := Unfinished;
        } else {
          r := Tokenize(fuel);
        }
      }
    }
  }
}
