/** The windowed state of one message key: the contract the window operators rely on. */
module WindowStore {

  datatype Span = Span(start: int, end: int)

  /** What a closing or updated window hands on. */
  datatype Emission<R> = Emission(span: Span, value: R)

  /** Order of the stored keys: by start, then by end (the byte order of the encoded pair). */
  predicate Before(a: Span, b: Span) {
    a.start < b.start || (a.start == b.start && a.end < b.end)
  }

  ghost predicate Ascending(spans: seq<Span>) {
    forall i, j :: 0 <= i < j < |spans| ==> Before(spans[i], spans[j])
  }

  /** The value of a store. -1 in lastExpired or lastDeleted stands for an empty index. */
  datatype Store<V> = Store(windows: map<Span, V>, latest: int, lastExpired: int, lastDeleted: int)

  function Empty<V>(): Store<V> { Store(map[], 0, -1, -1) }

  lemma {:induction false} LeastExists(spans: set<Span>)
    requires spans != {}
    ensures exists m :: m in spans && forall x :: x in spans ==> x == m || Before(m, x)
  {
    var s :| s in spans;
    if spans != {s} {
      LeastExists(spans - {s});
      var m :| m in spans - {s} && forall x :: x in spans - {s} ==> x == m || Before(m, x);
      var l := if Before(s, m) then s else m;
      forall x | x in spans ensures x == l || Before(l, x) {
        assert x == s || x in spans - {s};
      }
    }
  }

  /** The spans in key order. */
  function Sorted(spans: set<Span>): (r: seq<Span>)
    ensures Ascending(r)
    ensures forall s :: s in r <==> s in spans
    ensures r == [] <==> spans == {}
  {
    if spans == {} then []
    else
      LeastExists(spans);
      var m :| m in spans && forall x :: x in spans ==> x == m || Before(m, x);
      [m] + Sorted(spans - {m})
  }

  function InRange<V>(st: Store<V>, above: int, upTo: int): set<Span> {
    set s | s in st.windows && above < s.start <= upTo
  }

  /** get_windows: spans with above < start <= upTo, in key order. */
  function GetWindows<V>(st: Store<V>, above: int, upTo: int): (r: seq<Span>)
    ensures Ascending(r)
    ensures forall s :: s in r <==> s in st.windows && above < s.start <= upTo
    ensures r == [] <==> InRange(st, above, upTo) == {}
  {
    Sorted(InRange(st, above, upTo))
  }

  function Reverse<T>(s: seq<T>): (r: seq<T>)
    ensures |r| == |s|
    ensures forall i :: 0 <= i < |s| ==> r[i] == s[|s| - 1 - i]
  {
    if s == [] then [] else [s[|s| - 1]] + Reverse(s[..|s| - 1])
  }

  lemma InReverse<T>(x: seq<T>, t: T)
    ensures t in x ==> t in Reverse(x)
  {
    if t in x {
      var i :| 0 <= i < |x| && x[i] == t;
      assert Reverse(x)[|x| - 1 - i] == t;
    }
  }

  /** update_window: sets the value and advances the latest timestamp. */
  function UpdateWindow<V>(st: Store<V>, s: Span, v: V, ts: int): Store<V> {
    st.(windows := st.windows[s := v], latest := if ts > st.latest then ts else st.latest)
  }

  /** The spans one call of expire_windows reports. */
  function ExpiredSpans<V>(st: Store<V>, maxStart: int): seq<Span> {
    GetWindows(st, if st.lastExpired > -1 then st.lastExpired else -1, maxStart)
  }

  /** expire_windows: moves the expiration index to the last reported start. */
  function ExpireWindows<V>(st: Store<V>, maxStart: int, delete: bool): Store<V> {
    var expired := ExpiredSpans(st, maxStart);
    if expired == [] then st
    else
      st.(lastExpired := expired[|expired| - 1].start,
          windows := if delete then map s | s in st.windows && s !in expired :: st.windows[s] else st.windows)
  }

  function DeletedSpans<V>(st: Store<V>, maxStart: int): seq<Span> {
    GetWindows(st, if st.lastDeleted > -1 then st.lastDeleted else -1, maxStart)
  }

  /** delete_windows: the deletion index is only written for a non-zero start. */
  function DeleteWindows<V>(st: Store<V>, maxStart: int): Store<V> {
    var deleted := DeletedSpans(st, maxStart);
    st.(windows := map s | s in st.windows && s !in deleted :: st.windows[s],
        lastDeleted := if deleted != [] && deleted[|deleted| - 1].start != 0
                       then deleted[|deleted| - 1].start else st.lastDeleted)
  }
}
