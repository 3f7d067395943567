/**
 * Compose service records and the image-family classifier
 * (`_is_bitnami_image` and the redis / postgresql / keycloak dispatch order).
 */
module Services {
  import opened Wrappers
  import opened Strings

  /**
   * One compose service.  The five fields the transform reads or writes are
   * explicit (None = key absent); every other compose key is kept, in
   * serialised form, in `rest`, which the transform never touches.
   */
  datatype Service = Service(
    image: Option<string>,
    entrypoint: Option<seq<string>>,
    command: Option<seq<string>>,
    volumes: Option<seq<string>>,
    environment: Option<map<string, string>>,
    rest: map<string, string>)

  /** `svc.get("image", "")`. */
  function ImageOf(svc: Service): string {
    svc.image.GetOr("")
  }

  /** The marker every Bitnami image reference carries. */
  const BitnamiMarker := "bitnami"

  /**
   * The image reference (the empty string when absent) contains both the
   * Bitnami marker and `fragment`; case-sensitive plain substring tests.
   */
  function IsBitnamiImage(svc: Service, fragment: string): (b: bool)
    ensures b <==> (exists i: nat :: OccursAt(ImageOf(svc), BitnamiMarker, i))
                   && (exists j: nat :: OccursAt(ImageOf(svc), fragment, j))
    ensures svc.image.None? ==> !b
  {
    Contains(ImageOf(svc), BitnamiMarker) && Contains(ImageOf(svc), fragment)
  }

  /** The closed set of repair routines a service can be sent to. */
  datatype Family = Redis | Postgresql | Keycloak | Unmatched

  /**
   * The family a service is dispatched to: the first of redis, postgresql,
   * keycloak whose fragment the Bitnami image contains, else Unmatched.
   */
  function Classify(svc: Service): (f: Family)
    ensures f == Redis <==> IsBitnamiImage(svc, "redis")
    ensures f == Postgresql <==> !IsBitnamiImage(svc, "redis") && IsBitnamiImage(svc, "postgresql")
    ensures f == Keycloak <==> !IsBitnamiImage(svc, "redis") && !IsBitnamiImage(svc, "postgresql")
                                && IsBitnamiImage(svc, "keycloak")
    ensures f == Unmatched <==> !IsBitnamiImage(svc, "redis") && !IsBitnamiImage(svc, "postgresql")
                                 && !IsBitnamiImage(svc, "keycloak")
  {
    if IsBitnamiImage(svc, "redis") then Redis
    else if IsBitnamiImage(svc, "postgresql") then Postgresql
    else if IsBitnamiImage(svc, "keycloak") then Keycloak
    else Unmatched
  }

  /** An image reference without the Bitnami marker is never dispatched, whatever else it names. */
  lemma NonBitnamiIsUnmatched(svc: Service)
    requires !Contains(ImageOf(svc), BitnamiMarker)
    ensures Classify(svc) == Unmatched
  {
  }
}
