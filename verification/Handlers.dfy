/** The variables behind the tree's instance nodes, as their handlers serve them (core/mib_tree.c:114-242). */
module Handlers {
  import opened Oids

  /** `next(callback, q)` answers GETNEXT below an instance node; `vars(callback)` are the
      sub-identifiers of its variables. */
  datatype Handlers = Handlers(next: (int, Oid) -> Option<Oid>, vars: int -> set<Oid>)

  /** The answer is the least variable above the argument, or none when there is none. */
  ghost predicate Right(h: Handlers, callback: int, arg: Oid) {
    IsNext(h.vars(callback), arg, h.next(callback, arg))
  }

  /** Every answer is right, or missing as after a Lua error (core/mib_tree.c:176-180). */
  ghost predicate HandlersOk(h: Handlers) {
    && (forall callback, s :: s in h.vars(callback) ==> s != [])
    && (forall callback, arg :: Right(h, callback, arg) || h.next(callback, arg) == None)
  }

  /** No handler ever misses an answer. */
  ghost predicate HandlersRight(h: Handlers) {
    HandlersOk(h) && forall callback, arg :: Right(h, callback, arg)
  }

  /** What a search for `q` asks the handler at `p`: for what comes after the rest of `q`, or for the first. */
  function AskArg(p: Oid, q: Oid): Oid {
    if p <= q then q[|p|..] else []
  }

  /** The identifiers of all variables. */
  ghost function Instances(reg: map<Oid, int>, vars: int -> set<Oid>): set<Oid> {
    set p, s | p in reg && s in vars(reg[p]) :: p + s
  }

  /** Those under prefix `v`. */
  ghost function Visible(all: set<Oid>, v: Oid): set<Oid> {
    set o | o in all && v <= o
  }

  lemma LessConcat(c: Oid, s: Oid, t: Oid)
    ensures Less(c + s, c + t) <==> Less(s, t)
  {
    var n := CommonLen(s, t);
    assert (c + s)[..|c| + n] == c + s[..n] && (c + t)[..|c| + n] == c + t[..n];
    CommonLenIs(c + s, c + t, |c| + n);
  }
}
